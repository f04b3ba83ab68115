/** The payload template language: pkg/control/payload/parser.go and builder.go. */
module Template {
  import opened Options
  import opened Text
  import opened Seqs

  datatype Token =
    | Literal(value: string)
    | CR | LF | CRLF | Host | Port | HostPort | Protocol | Split | Raw

  // Parsing

  /** The token a lower-cased tag names. */
  function TagToken(tag: string): Option<Token> {
    if tag == "cr" then Some(CR)
    else if tag == "lf" then Some(LF)
    else if tag == "crlf" then Some(CRLF)
    else if tag == "host" then Some(Host)
    else if tag == "port" then Some(Port)
    else if tag == "host_port" || tag == "hostport" then Some(HostPort)
    else if tag == "protocol" then Some(Protocol)
    else if tag == "split" then Some(Split)
    else if tag == "raw" then Some(Raw)
    else None
  }

  /** `strings.IndexByte(s, ']')` */
  function CloseAt(s: string): (i: int)
    ensures i == -1 <==> ']' !in s
    ensures i != -1 ==> 0 <= i < |s| && s[i] == ']' && ']' !in s[..i]
  {
    if s == "" then -1
    else if s[0] == ']' then 0
    else
      var i := CloseAt(s[1..]);
      assert s == [s[0]] + s[1..];
      if i == -1 then -1 else assert s[..i + 1] == [s[0]] + s[1..][..i]; i + 1
  }

  function Flush(buf: string): seq<Token> { if buf == "" then [] else [Literal(buf)] }

  /** The scanner from the rest `s` of the pattern with literal text `buf` pending. */
  function Scan(s: string, buf: string): seq<Token>
    decreases |s|
  {
    if s == "" then Flush(buf)
    else if s[0] == '[' && CloseAt(s) != -1 then
      var end := CloseAt(s);
      var tag := TagToken(Lower(s[1..end]));
      if tag.Some? then Flush(buf) + ([tag.value] + Scan(s[end + 1..], ""))
      else Flush(buf) + Scan(s[end + 1..], s[..end + 1])
    else Scan(s[1..], buf + [s[0]])
  }

  function Parse(pattern: string): seq<Token> { Scan(pattern, "") }

  method ParseTemplate(rawPattern: string) returns (tokens: seq<Token>)
    ensures tokens == Parse(rawPattern)
  {
    hide TagToken, Scan, Flush, CloseAt, Lower;
    tokens := [];
    var buf := "";
    var i, n := 0, |rawPattern|;
    assert rawPattern[0..] == rawPattern;
    while i < n
      invariant 0 <= i <= n
      invariant tokens + Scan(rawPattern[i..], buf) == Parse(rawPattern)
      decreases n - i
    {
      ghost var rest := rawPattern[i..];
      ScanStep(rest, buf);
      if rawPattern[i] == '[' {
        var end := CloseAt(rawPattern[i..]);
        if end != -1 {
          ghost var left := rawPattern[i + end + 1..];
          assert rest[1..end] == rawPattern[i + 1..i + end] && rest[end + 1..] == left;
          assert rest[..end + 1] == rawPattern[i..i + end + 1];
          ghost var had, pending := tokens, Flush(buf);
          if |buf| > 0 {
            tokens := tokens + [Literal(buf)];
            buf := "";
          }
          assert tokens == had + pending;
          var tag := TagToken(Lower(rawPattern[i + 1..i + end]));
          if tag.Some? {
            Assoc(tokens, [tag.value], Scan(left, ""));
            Assoc(had, pending, [tag.value] + Scan(left, ""));
            tokens := tokens + [tag.value];
          } else {
            Assoc(had, pending, Scan(left, rest[..end + 1]));
            buf := buf + rawPattern[i..i + end + 1];
            assert buf == rest[..end + 1];
          }
          i := i + end + 1;
          continue;
        }
      }
      assert rest[1..] == rawPattern[i + 1..];
      buf := buf + [rawPattern[i]];
      i := i + 1;
    }
    assert rawPattern[i..] == "" && tokens + [] == tokens;
    ScanStep("", buf);
    if |buf| > 0 {
      tokens := tokens + [Literal(buf)];
    }
  }

  /** One round of the scanner. */
  lemma ScanStep(s: string, buf: string)
    ensures s == "" ==> Scan(s, buf) == if buf == "" then [] else [Literal(buf)]
    ensures Flush(buf) == if buf == "" then [] else [Literal(buf)]
    ensures s != "" && s[0] == '[' && CloseAt(s) != -1 ==>
              var end := CloseAt(s); var tag := TagToken(Lower(s[1..end]));
              Scan(s, buf) == Flush(buf) + if tag.Some? then [tag.value] + Scan(s[end + 1..], "")
                                           else Scan(s[end + 1..], s[..end + 1])
    ensures s != "" && !(s[0] == '[' && CloseAt(s) != -1) ==> Scan(s, buf) == Scan(s[1..], buf + [s[0]])
    ensures CloseAt(s) != -1 && s[0] == '[' ==> CloseAt(s) >= 1
  {
    hide TagToken, Lower;
  }

  // Building

  datatype TargetInfo = TargetInfo(host: string, port: string, protocol: string)

  function Expand(t: Token, target: TargetInfo): string {
    match t
    case Literal(v) => v
    case CR => "\r"
    case LF => "\n"
    case CRLF => "\r\n"
    case Host => target.host
    case Port => target.port
    case HostPort => target.host + ":" + target.port
    case Protocol => target.protocol
    case Raw =>
      "CONNECT " + target.host + ":" + target.port + " HTTP/1.1\r\nHost: " + target.host + ":" + target.port
      + "\r\nProxy-Connection: Keep-Alive\r\n\r\n"
    case Split => ""
  }

  function NonEmpty(segment: string): seq<string> { if segment == "" then [] else [segment] }

  function Segments(tokens: seq<Token>, current: string, target: TargetInfo): seq<string> {
    if tokens == [] then NonEmpty(current)
    else if tokens[0].Split? then NonEmpty(current) + Segments(tokens[1..], "", target)
    else Segments(tokens[1..], current + Expand(tokens[0], target), target)
  }

  function Build(pattern: string, target: TargetInfo): seq<string> { Segments(Parse(pattern), "", target) }

  method BuildSegments(tokens: seq<Token>, target: TargetInfo) returns (segments: seq<string>)
    ensures segments == Segments(tokens, "", target)
  {
    hide Expand;
    segments := [];
    var currentSeg := "";
    var i := 0;
    assert tokens[0..] == tokens;
    while i < |tokens|
      invariant 0 <= i <= |tokens|
      invariant segments + Segments(tokens[i..], currentSeg, target) == Segments(tokens, "", target)
      decreases |tokens| - i
    {
      assert tokens[i..][1..] == tokens[i + 1..];
      if tokens[i].Split? {
        if |currentSeg| > 0 {
          segments := segments + [currentSeg];
          currentSeg := "";
        }
      } else {
        currentSeg := currentSeg + Expand(tokens[i], target);
      }
      i := i + 1;
    }
    if |currentSeg| > 0 {
      segments := segments + [currentSeg];
    }
  }

  // What the segments are

  /** The token runs between splits: one more than there are splits. */
  function Runs(tokens: seq<Token>): (rs: seq<seq<Token>>)
    ensures rs != []
  {
    if tokens == [] then [[]]
    else
      var rest := Runs(tokens[1..]);
      if tokens[0].Split? then [[]] + rest else [[tokens[0]] + rest[0]] + rest[1..]
  }

  function ExpandAll(tokens: seq<Token>, target: TargetInfo): string {
    if tokens == [] then "" else Expand(tokens[0], target) + ExpandAll(tokens[1..], target)
  }

  function Expansions(runs: seq<seq<Token>>, target: TargetInfo): seq<string> {
    if runs == [] then [] else NonEmpty(ExpandAll(runs[0], target)) + Expansions(runs[1..], target)
  }

  function Concat(segments: seq<string>): string {
    if segments == [] then "" else segments[0] + Concat(segments[1..])
  }

  /** The segments are the nonempty expansions of the token runs between splits. */
  lemma {:induction false} SegmentsAreRuns(tokens: seq<Token>, current: string, target: TargetInfo)
    ensures var rs := Runs(tokens);
            Segments(tokens, current, target) == NonEmpty(current + ExpandAll(rs[0], target)) + Expansions(rs[1..], target)
  {
    hide Expand;
    if tokens == [] {
      assert Runs(tokens)[1..] == [] && current + ExpandAll([], target) == current;
    } else {
      var rest := Runs(tokens[1..]);
      if tokens[0].Split? {
        SegmentsAreRuns(tokens[1..], "", target);
        assert Runs(tokens)[1..] == rest;
        assert Expansions(rest, target) == NonEmpty(ExpandAll(rest[0], target)) + Expansions(rest[1..], target);
        assert "" + ExpandAll(rest[0], target) == ExpandAll(rest[0], target);
        assert current + ExpandAll([], target) == current;
      } else {
        SegmentsAreRuns(tokens[1..], current + Expand(tokens[0], target), target);
        var first := [tokens[0]] + rest[0];
        assert first[1..] == rest[0] && Runs(tokens)[1..] == rest[1..];
        assert current + Expand(tokens[0], target) + ExpandAll(rest[0], target) == current + ExpandAll(first, target);
      }
    }
  }

  /** Nothing is lost or added at the splits: the segments together are the full expansion. */
  lemma {:induction false} SegmentsTogether(tokens: seq<Token>, current: string, target: TargetInfo)
    ensures Concat(Segments(tokens, current, target)) == current + ExpandAll(tokens, target)
  {
    hide Expand;
    if tokens == [] {
    } else if tokens[0].Split? {
      SegmentsTogether(tokens[1..], "", target);
      ConcatFirst(current, Segments(tokens[1..], "", target));
      assert Expand(tokens[0], target) == "" by { SplitIsEmpty(target); }
      assert current + ("" + ExpandAll(tokens[1..], target)) == current + ExpandAll(tokens[1..], target);
    } else {
      SegmentsTogether(tokens[1..], current + Expand(tokens[0], target), target);
      assert current + Expand(tokens[0], target) + ExpandAll(tokens[1..], target)
          == current + (Expand(tokens[0], target) + ExpandAll(tokens[1..], target));
    }
  }

  lemma SplitIsEmpty(target: TargetInfo)
    ensures Expand(Split, target) == ""
  {
  }

  lemma ConcatFirst(segment: string, segments: seq<string>)
    ensures Concat(NonEmpty(segment) + segments) == segment + Concat(segments)
  {
    if segment != "" {
      assert ([segment] + segments)[1..] == segments;
    } else {
      assert [] + segments == segments;
    }
  }
}
