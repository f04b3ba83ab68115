/** The suffix trie of pkg/control/domain/trie.go: mutable nodes on the heap, keyed on reversed labels. */
module SuffixTrie {
  import opened Text

  // What a trie stands for

  /** From keys to the latest target. */
  type Entries = map<seq<string>, string>

  /** One insertion as a caller makes it. */
  datatype Listed = Listed(name: string, target: string)

  function Add(m: Entries, name: string, target: string): Entries {
    if Normal(name) == "" then m else m[Key(Normal(name)) := target]
  }

  function EntriesOf(inserts: seq<Listed>): Entries {
    if inserts == [] then map[]
    else
      var last := inserts[|inserts| - 1];
      Add(EntriesOf(inserts[..|inserts| - 1]), last.name, last.target)
  }

  lemma EntriesOfSnoc(inserts: seq<Listed>, last: Listed)
    ensures EntriesOf(inserts + [last]) == Add(EntriesOf(inserts), last.name, last.target)
  {
    assert (inserts + [last])[..|inserts|] == inserts;
  }

  datatype Found = NotFound | Found(target: string)

  /** The value at the longest nonempty stored prefix of `key`. */
  function LongestPrefix(m: Entries, key: seq<string>): Found {
    if key == [] then NotFound
    else if key in m then Found(m[key])
    else LongestPrefix(m, key[..|key| - 1])
  }

  lemma {:induction false} LongestPrefixIsLongest(m: Entries, key: seq<string>)
    ensures match LongestPrefix(m, key)
            case NotFound => forall k :: k != [] && k <= key ==> k !in m
            case Found(target) =>
              exists k :: k != [] && k <= key && k in m && m[k] == target
                          && forall k' :: k' != [] && k' <= key && k' in m ==> |k'| <= |k|
  {
    if key != [] && key !in m {
      var front := key[..|key| - 1];
      LongestPrefixIsLongest(m, front);
      forall k | k in m && k <= key ensures k <= front {
        assert k != key;
      }
    } else if key in m {
      assert key <= key;
    }
  }

  /** Nothing stored between `key` and `longer` changes the answer. */
  lemma {:induction false} LongestPrefixSkips(m: Entries, key: seq<string>, longer: seq<string>)
    requires key <= longer
    requires forall k :: key < k && k <= longer ==> k !in m
    ensures LongestPrefix(m, longer) == LongestPrefix(m, key)
  {
    if key != longer {
      var front := longer[..|longer| - 1];
      LongestPrefixSkips(m, key, front);
    }
  }

  lemma LongestPrefixStep(m: Entries, key: seq<string>, lab: string)
    ensures LongestPrefix(m, []) == NotFound
    ensures LongestPrefix(m, key + [lab]) == if key + [lab] in m then Found(m[key + [lab]]) else LongestPrefix(m, key)
  {
    assert (key + [lab])[..|key|] == key;
  }

  // The same in terms of names

  /** The latest insertion of the name `s`. */
  ghost predicate IsLatest(inserts: seq<Listed>, s: string, i: nat) {
    && i < |inserts| && Normal(inserts[i].name) == s
    && forall j :: i < j < |inserts| ==> Normal(inserts[j].name) != s
  }

  ghost predicate Mentions(inserts: seq<Listed>, s: string) {
    exists i :: 0 <= i < |inserts| && Normal(inserts[i].name) == s
  }

  lemma {:induction false} EntryIsLatest(inserts: seq<Listed>, s: string)
    requires s != ""
    ensures Key(s) in EntriesOf(inserts) <==> Mentions(inserts, s)
    ensures Key(s) in EntriesOf(inserts) ==>
              exists i: nat :: IsLatest(inserts, s, i) && EntriesOf(inserts)[Key(s)] == inserts[i].target
  {
    hide Key, Normal;
    if inserts != [] {
      var n := |inserts| - 1;
      var front := inserts[..n];
      EntryIsLatest(front, s);
      assert forall i :: 0 <= i < n ==> inserts[i] == front[i];
      var name := Normal(inserts[n].name);
      if name == s {
        assert IsLatest(inserts, s, n);
      } else {
        if name != "" && Key(name) == Key(s) {
          KeyInjective(name, s);
          assert false;
        }
        if Mentions(front, s) {
          var i: nat :| IsLatest(front, s, i) && EntriesOf(front)[Key(s)] == front[i].target;
          assert IsLatest(inserts, s, i);
        }
      }
    }
  }

  /** Insertion `i` answers for `name`: its name is a dotted suffix, none is longer, and it is the latest of its own. */
  ghost predicate Answers(inserts: seq<Listed>, name: string, i: nat) {
    && i < |inserts|
    && Applies(inserts[i], name)
    && (forall j :: 0 <= j < |inserts| && Applies(inserts[j], name) ==>
         |Normal(inserts[j].name)| <= |Normal(inserts[i].name)|)
    && IsLatest(inserts, Normal(inserts[i].name), i)
  }

  ghost predicate Applies(l: Listed, name: string) {
    Normal(l.name) != "" && DottedSuffix(name, Normal(l.name))
  }

  /**
    Label and string agreement: a lookup finds exactly the longest inserted name that equals the query or
    ends it after a dot, with the latest target given for it; and finds nothing only if there is none.
  */
  lemma LookupIsLongestSuffix(inserts: seq<Listed>, name: string)
    ensures match LongestPrefix(EntriesOf(inserts), Key(name))
            case NotFound => forall i :: 0 <= i < |inserts| ==> !Applies(inserts[i], name)
            case Found(target) => exists i: nat :: Answers(inserts, name, i) && inserts[i].target == target
  {
    hide Key, Split, DottedSuffix, Normal, LongestPrefix, EntriesOf;
    var m := EntriesOf(inserts);
    LongestPrefixIsLongest(m, Key(name));
    match LongestPrefix(m, Key(name))
    case NotFound =>
      forall i | 0 <= i < |inserts| ensures !Applies(inserts[i], name) {
        var s := Normal(inserts[i].name);
        if s != "" && DottedSuffix(name, s) {
          assert Mentions(inserts, s);
          PrefixIsDottedSuffix(name, s);
          EntryIsLatest(inserts, s);
        }
      }
    case Found(target) =>
      var k :| k != [] && k <= Key(name) && k in m && m[k] == target
               && forall k' :: k' != [] && k' <= Key(name) && k' in m ==> |k'| <= |k|;
      var s := PrefixIsKey(name, k);
      StoredIsNonempty(inserts, s);
      EntryIsLatest(inserts, s);
      var i: nat :| IsLatest(inserts, s, i) && m[Key(s)] == inserts[i].target;
      forall j | 0 <= j < |inserts| && Applies(inserts[j], name) ensures |Normal(inserts[j].name)| <= |s| {
        var t := Normal(inserts[j].name);
        EntryIsLatest(inserts, t);
        assert Mentions(inserts, t);
        PrefixIsDottedSuffix(name, t);
        KeyLabels(s);
        KeyLabels(t);
        LongerSuffixMoreLabels(name, s, t);
      }
      assert Answers(inserts, name, i);
  }

  lemma {:induction false} StoredIsNonempty(inserts: seq<Listed>, s: string)
    requires Key(s) in EntriesOf(inserts)
    ensures s != ""
  {
    if inserts != [] {
      var n := |inserts| - 1;
      var name := Normal(inserts[n].name);
      if name != "" && Key(name) == Key(s) {
        KeyInjective(name, s);
      } else {
        StoredIsNonempty(inserts[..n], s);
      }
    }
  }

  // The heap

  class TrieNode {
    var children: map<string, TrieNode>
    var target: string
    var isEnd: bool
    /** The labels that lead here from the root: a node is in one place only. */
    ghost const path: seq<string>

    constructor (ghost path: seq<string>)
      ensures children == map[] && !isEnd && target == "" && this.path == path
    {
      children, target, isEnd := map[], "", false;
      this.path := path;
    }
  }

  type Nodes = map<seq<string>, TrieNode>
  /** What the fields of the nodes hold, by path. */
  type Cells = map<seq<string>, Cell>
  datatype Cell = Cell(children: map<string, TrieNode>, isEnd: bool, target: string)

  /**
    The nodes are a finite tree: every node but the root is the child of exactly the node one label
    shorter, children lead to nodes, and since a node has one path, different paths lead to different
    nodes and subtrees are disjoint.
  */
  ghost predicate Shape(root: TrieNode, nodes: Nodes, cells: Cells) {
    && cells.Keys == nodes.Keys
    && [] in nodes && nodes[[]] == root
    && (forall p :: p in nodes ==> nodes[p].path == p)
    && (forall p {:trigger Linked(nodes, cells, p)} :: p in nodes && p != [] ==> Linked(nodes, cells, p))
    && (forall p, l {:trigger l in cells[p].children} :: p in cells && l in cells[p].children ==> p + [l] in nodes)
  }

  ghost predicate Linked(nodes: Nodes, cells: Cells, p: seq<string>)
    requires p in nodes && p != []
  {
    var n := |p| - 1;
    p[..n] in cells && p[n] in cells[p[..n]].children && cells[p[..n]].children[p[n]] == nodes[p]
  }

  function Grafted(cells: Cells, at: seq<string>, lab: string, next: TrieNode): Cells
    requires at in cells
  {
    cells[at := cells[at].(children := cells[at].children[lab := next])][at + [lab] := Cell(map[], false, "")]
  }

  function StoredOf(cells: Cells): Entries {
    map p | p in cells && cells[p].isEnd :: cells[p].target
  }

  /** A fresh node under an unused label extends the tree. */
  lemma GraftShape(root: TrieNode, nodes: Nodes, cells: Cells, at: seq<string>, lab: string, next: TrieNode)
    requires Shape(root, nodes, cells) && at in nodes && lab !in cells[at].children && next.path == at + [lab]
    ensures at + [lab] !in nodes
    ensures Shape(root, nodes[at + [lab] := next], Grafted(cells, at, lab, next))
  {
    var path := at + [lab];
    ChildShape(root, nodes, cells, at, lab);
    var nodes', cells' := nodes[path := next], Grafted(cells, at, lab, next);
    assert path[..|at|] == at && path[|at|] == lab;
    forall p | p in nodes' && p != [] ensures Linked(nodes', cells', p) {
      if p != path {
        GraftLinked(nodes, cells, at, lab, next, p);
      }
    }
    forall p, l | p in cells' && l in cells'[p].children ensures p + [l] in nodes' {
      assert p != path;
      if p == at && l == lab {
      } else {
        assert l in cells[p].children;
      }
    }
  }

  lemma GraftLinked(nodes: Nodes, cells: Cells, at: seq<string>, lab: string, next: TrieNode, p: seq<string>)
    requires at in cells && lab !in cells[at].children && at + [lab] !in cells
    requires p in nodes && p != [] && p != at + [lab] && Linked(nodes, cells, p)
    ensures Linked(nodes[at + [lab] := next], Grafted(cells, at, lab, next), p)
  {
  }

  /** A fresh node stores nothing. */
  lemma GraftStored(cells: Cells, at: seq<string>, lab: string, next: TrieNode)
    requires at in cells && at + [lab] !in cells
    ensures StoredOf(Grafted(cells, at, lab, next)) == StoredOf(cells)
  {
  }

  function Marked(cells: Cells, at: seq<string>, target: string): Cells
    requires at in cells
  {
    cells[at := cells[at].(isEnd := true, target := target)]
  }

  /** Marking a node sets the value at its path, and that alone. */
  lemma MarkStored(cells: Cells, at: seq<string>, target: string)
    requires at in cells
    ensures StoredOf(Marked(cells, at, target)) == StoredOf(cells)[at := target]
  {
  }

  /** Marking a node leaves the tree as it is. */
  lemma MarkShape(root: TrieNode, nodes: Nodes, cells: Cells, at: seq<string>, target: string)
    requires Shape(root, nodes, cells) && at in nodes
    ensures Shape(root, nodes, Marked(cells, at, target))
  {
    var cells' := Marked(cells, at, target);
    forall p | p in nodes && p != [] ensures Linked(nodes, cells', p) {
      assert Linked(nodes, cells, p);
    }
    forall p, l | p in cells' && l in cells'[p].children ensures p + [l] in nodes {
      assert l in cells[p].children;
    }
  }

  /** The child under a label is the node one label further, and there is none without one. */
  lemma ChildShape(root: TrieNode, nodes: Nodes, cells: Cells, at: seq<string>, lab: string)
    requires Shape(root, nodes, cells) && at in nodes
    ensures lab in cells[at].children <==> at + [lab] in nodes
    ensures lab in cells[at].children ==> cells[at].children[lab] == nodes[at + [lab]]
  {
    var path := at + [lab];
    assert path[..|at|] == at;
    assert path in nodes ==> Linked(nodes, cells, path);
  }

  lemma {:induction false} NothingBelow(root: TrieNode, nodes: Nodes, cells: Cells, missing: seq<string>, k: seq<string>)
    requires Shape(root, nodes, cells) && missing !in nodes && missing <= k
    ensures k !in nodes
    decreases |k|
  {
    if k != missing {
      assert k in nodes ==> Linked(nodes, cells, k);
      NothingBelow(root, nodes, cells, missing, k[..|k| - 1]);
    }
  }

  class DomainTrie {
    const root: TrieNode
    /** Every node, by the path of labels that leads to it from the root. */
    ghost var nodes: Nodes
    ghost var repr: set<TrieNode>
    ghost var inserts: seq<Listed>

    ghost predicate Tree()
      reads this`nodes, this`repr, repr
    {
      (forall p :: p in nodes ==> nodes[p] in repr) && Shape(root, nodes, Fields())
    }

    ghost function Fields(): Cells
      requires forall p :: p in nodes ==> nodes[p] in repr
      reads this`nodes, this`repr, repr
    {
      map p | p in nodes :: Cell(nodes[p].children, nodes[p].isEnd, nodes[p].target)
    }

    ghost function Stored(): Entries
      requires Tree()
      reads this`nodes, this`repr, repr
    {
      StoredOf(Fields())
    }

    ghost predicate Valid()
      reads this, repr
    {
      Tree() && Stored() == EntriesOf(inserts)
    }

    constructor ()
      ensures Valid() && fresh(repr) && inserts == []
    {
      root := new TrieNode([]);
      nodes, repr, inserts := map[[] := root], {root}, [];
    }

    /** The child of `curr` under `lab`, made if it is not there. */
    method Child(curr: TrieNode, lab: string) returns (next: TrieNode)
      requires Tree() && curr.path in nodes && nodes[curr.path] == curr
      modifies this`nodes, this`repr, curr`children
      ensures Tree() && curr.path + [lab] in nodes && next == nodes[curr.path + [lab]] && next.path == curr.path + [lab]
      ensures old(repr) <= repr && fresh(repr - old(repr))
      ensures Stored() == old(Stored())
    {
      hide Shape;
      if lab !in curr.children {
        Graft(curr, lab);
      }
      ChildShape(root, nodes, Fields(), curr.path, lab);
      Placed();
      next := curr.children[lab];
    }

    method Graft(curr: TrieNode, lab: string)
      requires Tree() && curr.path in nodes && nodes[curr.path] == curr && lab !in curr.children
      modifies this`nodes, this`repr, curr`children
      ensures Tree() && curr.path in nodes && nodes[curr.path] == curr && curr.path + [lab] in nodes
      ensures old(repr) <= repr && fresh(repr - old(repr))
      ensures Stored() == old(Stored())
    {
      ghost var path, before, cells := curr.path + [lab], nodes, Fields();
      Placed();
      hide Shape;
      var next := new TrieNode(path);
      GraftShape(root, nodes, cells, curr.path, lab, next);
      GraftStored(cells, curr.path, lab, next);
      curr.children := curr.children[lab := next];
      nodes, repr := nodes[path := next], repr + {next};
      forall p | p in nodes ensures Fields()[p] == Grafted(cells, curr.path, lab, next)[p] {
        if p != path && p != curr.path {
          assert nodes[p] == before[p] && nodes[p] != curr;
        }
      }
      assert Fields() == Grafted(cells, curr.path, lab, next);
    }

    /** Each node is where its path says. */
    lemma Placed()
      requires Tree()
      ensures [] in nodes && nodes[[]] == root
      ensures forall p :: p in nodes ==> nodes[p].path == p
    {
    }

    /** Changes the value at one key, the reversed labels of the normalised name, and nothing else. */
    method Insert(name: string, target: string)
      requires Valid()
      modifies this, repr
      ensures Valid() && old(repr) <= repr && fresh(repr - old(repr))
      ensures inserts == old(inserts) + [Listed(name, target)]
      ensures Stored() == Add(old(Stored()), name, target)
    {
      hide Key, Split, EntriesOf, Normal, Shape;
      var domain := Normal(name);
      ghost var before := inserts;
      inserts := inserts + [Listed(name, target)];
      EntriesOfSnoc(before, Listed(name, target));
      if domain == "" {
        return;
      }
      var labels := Split(domain);
      var curr := root;
      var i := |labels|;
      ghost var key := Key(domain);
      KeyLabels(domain);
      assert key[..0] == [];
      Placed();
      while i > 0
        invariant 0 <= i <= |labels|
        invariant Tree() && curr.path in nodes && nodes[curr.path] == curr && curr.path == key[..|labels| - i]
        invariant Stored() == old(Stored()) && inserts == before + [Listed(name, target)]
        invariant old(repr) <= repr && fresh(repr - old(repr))
        decreases i
      {
        i := i - 1;
        assert curr.path + [labels[i]] == key[..|labels| - i];
        curr := Child(curr, labels[i]);
      }
      assert key[..|labels|] == key;
      Mark(curr, target);
    }

    method Mark(curr: TrieNode, target: string)
      requires Tree() && curr.path in nodes && nodes[curr.path] == curr
      modifies curr`isEnd, curr`target
      ensures Tree() && Stored() == old(Stored())[curr.path := target]
    {
      ghost var cells := Fields();
      Placed();
      hide Shape;
      MarkShape(root, nodes, cells, curr.path, target);
      MarkStored(cells, curr.path, target);
      curr.isEnd := true;
      curr.target := target;
      assert Fields() == Marked(cells, curr.path, target);
    }

    /** The value at the longest stored prefix of the reversed query. */
    method Match(name: string) returns (target: string, found: bool)
      requires Valid()
      ensures (if found then Found(target) else NotFound) == LongestPrefix(EntriesOf(inserts), Key(Normal(name)))
      ensures !found ==> target == ""
    {
      hide Key, Split, EntriesOf, Normal, LongestPrefix, Shape;
      var domain := Normal(name);
      var labels := Split(domain);
      var curr := root;
      target, found := "", false;
      var i := |labels|;
      ghost var key := Key(domain);
      KeyLabels(domain);
      LongestPrefixStep(Stored(), [], "");
      assert key[..0] == [];
      Placed();
      while i > 0
        invariant 0 <= i <= |labels|
        invariant key[..|labels| - i] in nodes && nodes[key[..|labels| - i]] == curr
        invariant (if found then Found(target) else NotFound) == LongestPrefix(Stored(), key[..|labels| - i])
        invariant !found ==> target == ""
        decreases i
      {
        ghost var path := key[..|labels| - i];
        var lab := labels[i - 1];
        assert lab == key[|path|];
        assert path + [lab] == key[..|labels| - (i - 1)];
        ChildShape(root, nodes, Fields(), path, lab);
        if lab !in curr.children {
          forall k | path < k && k <= key ensures k !in nodes {
            NothingBelow(root, nodes, Fields(), path + [lab], k);
          }
          LongestPrefixSkips(Stored(), path, key);
          break;
        }
        curr := curr.children[lab];
        LongestPrefixStep(Stored(), path, lab);
        if curr.isEnd {
          target, found := curr.target, true;
        }
        i := i - 1;
      }
      assert key[..|labels|] == key;
    }
  }
}
