/**
  What a payload pattern says and what is built from it: patterns as lists of pieces, tags by the names users
  write, and the text each stands for. Neither tokens nor expansions are mentioned in the statements.
*/
module TemplateTexts {
  import opened Options
  import opened Spelling
  import opened Text
  import opened Template
  import opened TemplateLaws

  datatype Piece =
    | Words(text: string)
    | Tag(name: string, spelled: string)   // `spelled` is the name in any mixture of cases
    | Unknown(spelled: string)

  predicate IsTagName(name: string) {
    || name == "cr" || name == "lf" || name == "crlf" || name == "host" || name == "port" || name == "host_port"
    || name == "hostport" || name == "protocol" || name == "split" || name == "raw"
  }

  ghost predicate Ok(p: Piece) {
    match p
    case Words(text) => '[' !in text
    case Tag(name, spelled) => IsTagName(name) && SameUpToCase(spelled, name)
    case Unknown(spelled) => ']' !in spelled && forall name :: IsTagName(name) ==> !SameUpToCase(spelled, name)
  }

  ghost predicate AllOk(ps: seq<Piece>) { forall p <- ps :: Ok(p) }

  function Written(p: Piece): string {
    if p.Words? then p.text else "[" + p.spelled + "]"
  }

  function WrittenAll(ps: seq<Piece>): string {
    if ps == [] then "" else Written(ps[0]) + WrittenAll(ps[1..])
  }

  /** The text a tag stands for. */
  function Meaning(name: string, target: TargetInfo): string {
    if name == "cr" then "\r"
    else if name == "lf" then "\n"
    else if name == "crlf" then "\r\n"
    else if name == "host" then target.host
    else if name == "port" then target.port
    else if name == "host_port" || name == "hostport" then target.host + ":" + target.port
    else if name == "protocol" then target.protocol
    else if name == "raw" then
      "CONNECT " + target.host + ":" + target.port + " HTTP/1.1\r\nHost: " + target.host + ":" + target.port
      + "\r\nProxy-Connection: Keep-Alive\r\n\r\n"
    else ""
  }

  function Says(p: Piece, target: TargetInfo): string {
    match p
    case Words(text) => text
    case Tag(name, _) => Meaning(name, target)
    case Unknown(spelled) => "[" + spelled + "]"
  }

  function SaysAll(ps: seq<Piece>, target: TargetInfo): string {
    if ps == [] then "" else Says(ps[0], target) + SaysAll(ps[1..], target)
  }

  // Single pieces

  lemma NameMeans(name: string, target: TargetInfo)
    requires IsTagName(name)
    ensures TagToken(name).Some? && Expand(TagToken(name).value, target) == Meaning(name, target)
    ensures TagToken(name).value.Split? <==> name == "split"
  {
  }

  lemma NameIsPlain(name: string)
    requires IsTagName(name)
    ensures NoCapitals(name) && ']' !in name
  {
  }

  lemma TagIsRecognised(name: string, spelled: string, target: TargetInfo)
    requires IsTagName(name) && SameUpToCase(spelled, name)
    ensures TagToken(Lower(spelled)).Some? && Expand(TagToken(Lower(spelled)).value, target) == Meaning(name, target)
    ensures TagToken(Lower(spelled)).value.Split? <==> name == "split"
    ensures ']' !in spelled
  {
    hide Lower, TagToken, IsTagName, Meaning, Expand;
    NameMeans(name, target);
    NameIsPlain(name);
    LowerIff(spelled, name);
    LowerIff(name, name);
    forall i | 0 <= i < |spelled| ensures spelled[i] != ']' {
      assert SameLetter(spelled[i], name[i]) && name[i] in name;
    }
  }

  lemma UnknownIsNoTag(spelled: string)
    requires forall name :: IsTagName(name) ==> !SameUpToCase(spelled, name)
    ensures TagToken(Lower(spelled)).None?
  {
    LowerIff(spelled, spelled);
    if TagToken(Lower(spelled)).Some? {
      assert IsTagName(Lower(spelled));
      LowerIff(spelled, Lower(spelled));
      LowerIff(Lower(spelled), Lower(spelled));
      assert false;
    }
  }

  /** A bracketed piece at the front is read as one. */
  lemma BracketAt(spelled: string, rest: string)
    requires ']' !in spelled
    ensures var s := "[" + spelled + "]" + rest; var end := |spelled| + 1;
            OpensTag(s) && CloseAt(s) == end && s[1..end] == spelled
            && s[..end + 1] == "[" + spelled + "]" && s[end + 1..] == rest
  {
    hide CloseAt;
    var s, end := "[" + spelled + "]" + rest, |spelled| + 1;
    assert s[..end] == "[" + spelled;
    CloseAtFirst(s, end);
  }

  // The expansion of a pattern

  lemma {:induction false} ExpansionIsWhatItSays(ps: seq<Piece>, target: TargetInfo)
    requires AllOk(ps)
    ensures ExpandAll(Parse(WrittenAll(ps)), target) == SaysAll(ps, target)
  {
    hide Scan, TagToken, Lower, CloseAt, ExpandAll, Expand, IsTagName, Meaning;
    if ps == [] {
      NoCloseIsText("", target);
    } else {
      var p, rest := ps[0], WrittenAll(ps[1..]);
      assert p in ps && Ok(p);
      ExpansionIsWhatItSays(ps[1..], target);
      match p {
        case Words(text) =>
          ScanText(text, rest, "");
          assert "" + text == text;
          ExpandPending(rest, text, target);
        case Tag(name, spelled) =>
          TagIsRecognised(name, spelled, target);
          BracketAt(spelled, rest);
          ExpandHead("[" + spelled + "]" + rest, target);
        case Unknown(spelled) =>
          UnknownIsNoTag(spelled);
          BracketAt(spelled, rest);
          ExpandHead("[" + spelled + "]" + rest, target);
      }
    }
  }

  /**
    What is built from a pattern, joined, is the pattern with every tag, however spelled, replaced by the text
    it stands for, every unknown bracket and all other text kept as it is.
  */
  lemma BuiltTextIsWhatItSays(ps: seq<Piece>, target: TargetInfo)
    requires AllOk(ps)
    ensures Concat(Build(WrittenAll(ps), target)) == SaysAll(ps, target)
  {
    hide Segments, ExpandAll, Scan;
    SegmentsTogether(Parse(WrittenAll(ps)), "", target);
    ExpansionIsWhatItSays(ps, target);
    assert "" + SaysAll(ps, target) == SaysAll(ps, target);
  }

  // The segments of a pattern

  predicate NoSplit(ps: seq<Piece>) { forall p <- ps :: !(p.Tag? && p.name == "split") }

  /** Reading one piece off the front, with `buf` pending before it and `pending` after. */
  lemma ScanPiece(p: Piece, rest: string, buf: string) returns (front: seq<Token>, pending: string)
    requires Ok(p) && !(p.Tag? && p.name == "split")
    ensures Scan(Written(p) + rest, buf) == front + Scan(rest, pending)
    ensures forall t <- front :: !t.Split?
  {
    hide Scan, TagToken, Lower, CloseAt, Expand, IsTagName, SameUpToCase;
    front, pending := Flush(buf), buf;
    match p {
      case Words(text) =>
        ScanText(text, rest, buf);
        front, pending := [], buf + text;
      case Tag(name, spelled) =>
        TagIsRecognised(name, spelled, TargetInfo("", "", ""));
        BracketAt(spelled, rest);
        ScanStep("[" + spelled + "]" + rest, buf);
        var tag := TagToken(Lower(spelled)).value;
        front, pending := Flush(buf) + [tag], "";
        assert Flush(buf) + ([tag] + Scan(rest, "")) == front + Scan(rest, "");
      case Unknown(spelled) =>
        UnknownIsNoTag(spelled);
        BracketAt(spelled, rest);
        ScanStep("[" + spelled + "]" + rest, buf);
        pending := "[" + spelled + "]";
    }
  }

  lemma {:induction false} NoSplitTokens(ps: seq<Piece>, buf: string)
    requires AllOk(ps) && NoSplit(ps)
    ensures forall t <- Scan(WrittenAll(ps), buf) :: !t.Split?
  {
    hide Scan, Ok, Written;
    if ps == [] {
      ScanStep("", buf);
    } else {
      assert ps[0] in ps;
      var front, pending := ScanPiece(ps[0], WrittenAll(ps[1..]), buf);
      NoSplitTokens(ps[1..], pending);
    }
  }

  lemma {:induction false} OneSegment(ts: seq<Token>, current: string, target: TargetInfo)
    requires forall t <- ts :: !t.Split?
    ensures Segments(ts, current, target) == NonEmpty(current + ExpandAll(ts, target))
  {
    hide Expand;
    if ts == [] {
      assert current + "" == current;
    } else {
      OneSegment(ts[1..], current + Expand(ts[0], target), target);
      assert current + Expand(ts[0], target) + ExpandAll(ts[1..], target) == current + ExpandAll(ts, target);
    }
  }

  lemma {:induction false} ClosedText(text: string, rest: string)
    requires '[' !in text
    ensures Closed(text + rest) == Closed(rest)
  {
    hide CloseAt;
    if text == "" {
      assert text + rest == rest;
    } else {
      assert (text + rest)[1..] == text[1..] + rest && text[0] != '[';
      ClosedText(text[1..], rest);
    }
  }

  lemma {:induction false} PatternsAreClosed(ps: seq<Piece>)
    requires AllOk(ps)
    ensures Closed(WrittenAll(ps))
  {
    hide CloseAt, IsTagName;
    if ps != [] {
      var p, rest := ps[0], WrittenAll(ps[1..]);
      assert p in ps && Ok(p);
      PatternsAreClosed(ps[1..]);
      match p {
        case Words(text) => ClosedText(text, rest);
        case Tag(name, spelled) =>
          TagIsRecognised(name, spelled, TargetInfo("", "", ""));
          BracketAt(spelled, rest);
        case Unknown(spelled) => BracketAt(spelled, rest);
      }
    }
  }

  /** A pattern written with splits between groups of pieces. */
  function WrittenGroups(groups: seq<seq<Piece>>): string
    requires groups != []
  {
    if |groups| == 1 then WrittenAll(groups[0]) else WrittenAll(groups[0]) + "[split]" + WrittenGroups(groups[1..])
  }

  function SaysGroups(groups: seq<seq<Piece>>, target: TargetInfo): seq<string> {
    if groups == [] then []
    else (if SaysAll(groups[0], target) == "" then [] else [SaysAll(groups[0], target)]) + SaysGroups(groups[1..], target)
  }

  lemma GroupIsASegment(ps: seq<Piece>, target: TargetInfo)
    requires AllOk(ps) && NoSplit(ps)
    ensures Build(WrittenAll(ps), target) == if SaysAll(ps, target) == "" then [] else [SaysAll(ps, target)]
  {
    hide Segments, ExpandAll, Scan;
    NoSplitTokens(ps, "");
    OneSegment(Parse(WrittenAll(ps)), "", target);
    ExpansionIsWhatItSays(ps, target);
    assert "" + SaysAll(ps, target) == SaysAll(ps, target);
  }

  /** One segment for every group that says anything, in order, with exactly what the group says. */
  lemma {:induction false} SegmentsAreWhatGroupsSay(groups: seq<seq<Piece>>, target: TargetInfo)
    requires groups != [] && forall g <- groups :: AllOk(g) && NoSplit(g)
    ensures Build(WrittenGroups(groups), target) == SaysGroups(groups, target)
  {
    hide Segments, Scan, Closed, WrittenAll, SaysAll, AllOk, NoSplit;
    var g := groups[0];
    assert g in groups && AllOk(g) && NoSplit(g);
    GroupIsASegment(g, target);
    if |groups| == 1 {
      assert groups[1..] == [];
    } else {
      SegmentsAreWhatGroupsSay(groups[1..], target);
      PatternsAreClosed(g);
      ClosedComposes(WrittenAll(g), WrittenGroups(groups[1..]), target);
    }
  }
}
