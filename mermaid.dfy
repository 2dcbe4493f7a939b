/**
 * The Mermaid `graph TD` text both compilers emit: node and edge declarations,
 * one `subgraph ... end` region per pool or group, and the document that
 * concatenates them behind the header line.
 */
module Mermaid {
  import opened Wrappers
  import opened Text

  datatype Shape = Rectangle | Diamond

  /** A declared node `n<id>`: a rectangle `["text"]` or a diamond `{"text"}`. */
  datatype Node = Node(id: nat, text: string, shape: Shape)

  /**
   * One connection line: from the decision node `n<from>`, optionally through a
   * branch-start node `x<via>`, optionally labelled `|tag|`, optionally into an
   * outcome node `n<outcome>`, and always into the region's end marker.
   */
  datatype Edge = Edge(from: nat, via: Option<nat>, tag: Option<string>, outcome: Option<nat>)

  /** One region of the diagram: its title, its nodes in allocation order and its edges. */
  datatype Cluster = Cluster(name: string, decision: Node, branch: Option<nat>, outcomes: seq<Node>, edges: seq<Edge>)

  const Header: string := "graph TD\n"

  /** The line is non-empty and begins with `c`. */
  predicate Opens(line: string, c: char) {
    |line| > 0 && line[0] == c
  }

  function NodeId(k: nat): string {
    "n" + NatToString(k)
  }

  function BranchId(j: nat): string {
    "x" + NatToString(j)
  }

  function NodeLine(n: Node): (r: string)
    ensures Opens(r, 'n')
  {
    match n.shape
    case Diamond => NodeId(n.id) + "{\"" + n.text + "\"}"
    case Rectangle => NodeId(n.id) + "[\"" + n.text + "\"]"
  }

  function BranchLine(j: nat): (r: string)
    ensures Opens(r, 'x')
  {
    BranchId(j) + "{x}"
  }

  /** `End` followed by the region title with every space replaced by `_`. */
  function EndMarkerId(name: string): (r: string)
    ensures |r| == 3 + |name| && r[..3] == "End"
    ensures forall i :: 0 <= i < |name| ==> r[3 + i] == (if name[i] == ' ' then '_' else name[i])
  {
    "End" + ReplaceAll(name, ' ', '_')
  }

  function EndMarkerLine(name: string): (r: string)
    ensures Opens(r, 'E')
  {
    EndMarkerId(name) + "((( )))"
  }

  function EdgeLine(e: Edge, endId: string): (r: string)
    ensures Opens(r, 'n')
  {
    NodeId(e.from)
    + (if e.via.Some? then " --> " + BranchId(e.via.value) else "")
    + " --> "
    + (if e.tag.Some? then "|" + e.tag.value + "| " else "")
    + (if e.outcome.Some? then NodeId(e.outcome.value) + " --> " else "")
    + endId
  }

  function NodeLines(ns: seq<Node>): (r: seq<string>)
    ensures |r| == |ns| && forall i :: 0 <= i < |ns| ==> r[i] == NodeLine(ns[i])
  {
    if ns == [] then [] else NodeLines(ns[..|ns| - 1]) + [NodeLine(ns[|ns| - 1])]
  }

  function EdgeLines(es: seq<Edge>, endId: string): (r: seq<string>)
    ensures |r| == |es| && forall i :: 0 <= i < |es| ==> r[i] == EdgeLine(es[i], endId)
  {
    if es == [] then [] else EdgeLines(es[..|es| - 1], endId) + [EdgeLine(es[|es| - 1], endId)]
  }

  lemma NodeLinesSnoc(ns: seq<Node>, n: Node)
    ensures NodeLines(ns + [n]) == NodeLines(ns) + [NodeLine(n)]
  {
    assert (ns + [n])[..|ns|] == ns;
  }

  lemma EdgeLinesSnoc(es: seq<Edge>, e: Edge, endId: string)
    ensures EdgeLines(es + [e], endId) == EdgeLines(es, endId) + [EdgeLine(e, endId)]
  {
    assert (es + [e])[..|es|] == es;
  }

  /** The branch-start node line of a region, if it has one. */
  function BranchLines(c: Cluster): seq<string> {
    if c.branch.Some? then [BranchLine(c.branch.value)] else []
  }

  /** The lines of one region, in emission order. */
  function ClusterLines(c: Cluster): seq<string> {
    ["subgraph " + c.name]
    + [NodeLine(c.decision)]
    + BranchLines(c)
    + NodeLines(c.outcomes)
    + [EndMarkerLine(c.name)]
    + EdgeLines(c.edges, EndMarkerId(c.name))
    + ["end"]
  }

  /** The text one region adds to the document: its lines joined with newlines, then a newline. */
  function Chunk(c: Cluster): string {
    Join(ClusterLines(c), "\n") + "\n"
  }

  function Chunks(cs: seq<Cluster>): string {
    if cs == [] then [] else Chunks(cs[..|cs| - 1]) + Chunk(cs[|cs| - 1])
  }

  /** The whole document: the header line, then every region in order. */
  function Serialize(cs: seq<Cluster>): (r: string)
    ensures |r| >= |Header| && r[..|Header|] == Header
    ensures cs == [] ==> r == Header
  {
    Header + Chunks(cs)
  }

  /** Appending a region appends its chunk to the document. */
  lemma SerializeSnoc(cs: seq<Cluster>, c: Cluster)
    ensures Serialize(cs + [c]) == Serialize(cs) + Chunk(c)
  {
    assert (cs + [c])[..|cs|] == cs;
  }

  /** What stands at each position of a region's lines. */
  lemma ClusterLineAt(c: Cluster, i: nat)
    requires i < |ClusterLines(c)|
    ensures var r := ClusterLines(c);
      var m := 2 + |BranchLines(c)| + |c.outcomes|;
      && |r| == m + |c.edges| + 2
      && (i == 0 ==> r[i] == "subgraph " + c.name)
      && (i == 1 ==> r[i] == NodeLine(c.decision))
      && (1 <= i < m ==> Opens(r[i], 'n') || Opens(r[i], 'x'))
      && (i == m ==> r[i] == EndMarkerLine(c.name))
      && (m < i < |r| - 1 ==> Opens(r[i], 'n'))
      && (i == |r| - 1 ==> r[i] == "end")
  {
    var b := BranchLines(c);
    var o := NodeLines(c.outcomes);
    var es := EdgeLines(c.edges, EndMarkerId(c.name));
    var head := ["subgraph " + c.name] + [NodeLine(c.decision)];
    var nodes := head + b + o;
    var r := nodes + [EndMarkerLine(c.name)] + es + ["end"];
    assert ClusterLines(c) == r;
    var m := 2 + |b| + |c.outcomes|;
    if i < m {
      assert r[i] == nodes[i];
      if i == 0 || i == 1 {
        assert nodes[i] == head[i];
      } else if i < 2 + |b| {
        assert nodes[i] == b[i - 2];
      } else {
        assert nodes[i] == o[i - 2 - |b|];
      }
    } else if m < i < |r| - 1 {
      assert r[i] == es[i - m - 1];
    }
  }

  /**
   * Every region is closed: its first line opens it, its last line is `end`,
   * its end marker comes right after the node lines (which open with `n` or
   * `x`) and before the edge lines (which open with `n`), and the opening
   * line, the end marker line and `end` each occur exactly once.
   */
  lemma ClusterLayout(c: Cluster)
    ensures var r := ClusterLines(c);
      var m := 2 + |BranchLines(c)| + |c.outcomes|;
      && |r| == m + |c.edges| + 2
      && r[0] == "subgraph " + c.name
      && r[1] == NodeLine(c.decision)
      && r[m] == EndMarkerLine(c.name)
      && r[|r| - 1] == "end"
      && (forall i :: 1 <= i < m ==> Opens(r[i], 'n') || Opens(r[i], 'x'))
      && (forall i :: m < i < |r| - 1 ==> Opens(r[i], 'n'))
      && (forall i :: 0 <= i < |r| && r[i] == EndMarkerLine(c.name) ==> i == m)
      && (forall i :: 0 <= i < |r| && r[i] == "end" ==> i == |r| - 1)
      && (forall i :: 0 <= i < |r| && Opens(r[i], 's') ==> i == 0)
  {
    var r := ClusterLines(c);
    var m := 2 + |BranchLines(c)| + |c.outcomes|;
    ClusterLineAt(c, 0);
    ClusterLineAt(c, 1);
    ClusterLineAt(c, m);
    ClusterLineAt(c, |r| - 1);
    forall i | 0 <= i < |r|
      ensures && (1 <= i < m ==> Opens(r[i], 'n') || Opens(r[i], 'x'))
              && (m < i < |r| - 1 ==> Opens(r[i], 'n'))
              && (r[i] == EndMarkerLine(c.name) ==> i == m)
              && (r[i] == "end" ==> i == |r| - 1)
              && (Opens(r[i], 's') ==> i == 0)
    {
      ClusterLineAt(c, i);
      var e := EndMarkerLine(c.name);
      assert Opens(e, 'E');
      if i == 0 {
        assert Opens(r[i], 's');
      } else if i == |r| - 1 {
        assert Opens(r[i], 'e');
      }
    }
  }

  /** All node ids of a document in declaration order: each region's decision node, then its outcomes. */
  function NodeIds(cs: seq<Cluster>): seq<nat> {
    if cs == [] then []
    else
      var c := cs[|cs| - 1];
      NodeIds(cs[..|cs| - 1]) + [c.decision.id] + OutcomeIds(c.outcomes)
  }

  function OutcomeIds(ns: seq<Node>): (r: seq<nat>)
    ensures |r| == |ns| && forall i :: 0 <= i < |ns| ==> r[i] == ns[i].id
  {
    if ns == [] then [] else OutcomeIds(ns[..|ns| - 1]) + [ns[|ns| - 1].id]
  }

  /** All branch-start ids of a document, in declaration order. */
  function BranchIds(cs: seq<Cluster>): seq<nat> {
    if cs == [] then []
    else
      var c := cs[|cs| - 1];
      BranchIds(cs[..|cs| - 1]) + (if c.branch.Some? then [c.branch.value] else [])
  }

  /** `ids` is exactly `lo, lo + 1, ..., hi - 1`: strictly increasing, so no id is used twice. */
  ghost predicate Consecutive(ids: seq<nat>, lo: nat, hi: nat) {
    lo <= hi && |ids| == hi - lo && forall i :: 0 <= i < |ids| ==> ids[i] == lo + i
  }

  /** Two consecutive runs that meet form one run. */
  lemma ConsecutiveAppend(a: seq<nat>, b: seq<nat>, lo: nat, mid: nat, hi: nat)
    requires Consecutive(a, lo, mid) && Consecutive(b, mid, hi)
    ensures Consecutive(a + b, lo, hi)
  {
  }
}
