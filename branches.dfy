/**
 * The per-block rule both compilers apply inside one region: a block of a
 * conditional region gives a labelled edge (3 lines: condition and outcome
 * task, 2 lines: condition straight into the end marker); a block of a
 * non-conditional region gives an edge through an outcome task when it has
 * exactly 2 lines. Every other block is skipped. Outcome nodes draw their ids
 * from the running node counter.
 */
module Branches {
  import opened Wrappers
  import opened Mermaid

  /** The block yields a connection line. */
  predicate GivesEdge(block: seq<string>, conditional: bool) {
    if conditional then |block| == 3 || |block| == 2 else |block| == 2
  }

  /** The block yields an outcome node (and so consumes a node id). */
  predicate GivesNode(block: seq<string>, conditional: bool) {
    if conditional then |block| == 3 else |block| == 2
  }

  /** What the blocks seen so far produced: outcome nodes, edges, and the next free node id. */
  datatype Built = Built(outcomes: seq<Node>, edges: seq<Edge>, next: nat)

  /** The effect of one block on what was built so far. */
  function AddBlock(b: Built, block: seq<string>, conditional: bool, decision: nat, via: Option<nat>): Built {
    if conditional && |block| == 3 then
      Built(b.outcomes + [Node(b.next, block[2], Rectangle)],
            b.edges + [Edge(decision, via, Some(block[1]), Some(b.next))],
            b.next + 1)
    else if conditional && |block| == 2 then
      Built(b.outcomes, b.edges + [Edge(decision, via, Some(block[1]), None)], b.next)
    else if !conditional && |block| == 2 then
      Built(b.outcomes + [Node(b.next, block[1], Rectangle)],
            b.edges + [Edge(decision, via, None, Some(b.next))],
            b.next + 1)
    else
      b
  }

  /** The blocks of one region processed in order, starting from node id `k`. */
  function BuildBlocks(blocks: seq<seq<string>>, conditional: bool, decision: nat, via: Option<nat>, k: nat): Built {
    if blocks == [] then Built([], [], k)
    else
      AddBlock(BuildBlocks(blocks[..|blocks| - 1], conditional, decision, via, k),
               blocks[|blocks| - 1], conditional, decision, via)
  }

  /** The blocks that yield an edge, in input order. */
  function EdgeBlocks(blocks: seq<seq<string>>, conditional: bool): (r: seq<seq<string>>)
    ensures forall i :: 0 <= i < |r| ==> GivesEdge(r[i], conditional)
  {
    if blocks == [] then []
    else
      var last := blocks[|blocks| - 1];
      EdgeBlocks(blocks[..|blocks| - 1], conditional) + (if GivesEdge(last, conditional) then [last] else [])
  }

  /** The blocks that yield an outcome node, in input order. */
  function NodeBlocks(blocks: seq<seq<string>>, conditional: bool): (r: seq<seq<string>>)
    ensures forall i :: 0 <= i < |r| ==> GivesNode(r[i], conditional)
  {
    if blocks == [] then []
    else
      var last := blocks[|blocks| - 1];
      NodeBlocks(blocks[..|blocks| - 1], conditional) + (if GivesNode(last, conditional) then [last] else [])
  }

  /** The outcome nodes the edges pass through, in edge order. */
  function Targets(edges: seq<Edge>): seq<nat> {
    if edges == [] then []
    else
      var e := edges[|edges| - 1];
      Targets(edges[..|edges| - 1]) + (if e.outcome.Some? then [e.outcome.value] else [])
  }

  /**
   * One outcome node per block that gives a node, labelled with that block's
   * last line, holding the ids `k, k + 1, ...` in block order; the counter ends
   * just past them.
   */
  lemma {:induction false} BuildBlocksNodes(blocks: seq<seq<string>>, conditional: bool, decision: nat, via: Option<nat>, k: nat)
    ensures var b := BuildBlocks(blocks, conditional, decision, via, k);
      var nb := NodeBlocks(blocks, conditional);
      && b.next == k + |nb|
      && |b.outcomes| == |nb|
      && (forall i :: 0 <= i < |nb| ==> b.outcomes[i] == Node(k + i, nb[i][|nb[i]| - 1], Rectangle))
  {
    if blocks != [] {
      var prefix := blocks[..|blocks| - 1];
      var x := blocks[|blocks| - 1];
      BuildBlocksNodes(prefix, conditional, decision, via, k);
      var p := BuildBlocks(prefix, conditional, decision, via, k);
      var b := BuildBlocks(blocks, conditional, decision, via, k);
      assert b == AddBlock(p, x, conditional, decision, via);
      var nb := NodeBlocks(blocks, conditional);
      if GivesNode(x, conditional) {
        assert nb == NodeBlocks(prefix, conditional) + [x];
        assert b.outcomes == p.outcomes + [Node(p.next, x[|x| - 1], Rectangle)];
      } else {
        assert nb == NodeBlocks(prefix, conditional);
        assert b.outcomes == p.outcomes && b.next == p.next;
      }
    }
  }

  /**
   * One edge per block that gives an edge, in block order: from the decision
   * node, through `via`, labelled with the condition line exactly when the
   * region is conditional, and through an outcome exactly when the block gives one.
   */
  lemma {:induction false} BuildBlocksEdges(blocks: seq<seq<string>>, conditional: bool, decision: nat, via: Option<nat>, k: nat)
    ensures var b := BuildBlocks(blocks, conditional, decision, via, k);
      var eb := EdgeBlocks(blocks, conditional);
      && |b.edges| == |eb|
      && (forall i :: 0 <= i < |eb| ==>
            && b.edges[i].from == decision
            && b.edges[i].via == via
            && b.edges[i].tag == (if conditional then Some(eb[i][1]) else None)
            && (b.edges[i].outcome.Some? <==> GivesNode(eb[i], conditional)))
  {
    if blocks != [] {
      var prefix := blocks[..|blocks| - 1];
      var x := blocks[|blocks| - 1];
      BuildBlocksEdges(prefix, conditional, decision, via, k);
      var p := BuildBlocks(prefix, conditional, decision, via, k);
      var b := BuildBlocks(blocks, conditional, decision, via, k);
      assert b == AddBlock(p, x, conditional, decision, via);
      var eb := EdgeBlocks(blocks, conditional);
      if GivesEdge(x, conditional) {
        assert eb == EdgeBlocks(prefix, conditional) + [x];
        assert b.edges[..|p.edges|] == p.edges;
      } else {
        assert eb == EdgeBlocks(prefix, conditional);
        assert b.edges == p.edges;
      }
    }
  }

  /** Every outcome node is entered by exactly one edge, in allocation order. */
  lemma {:induction false} BuildBlocksTargets(blocks: seq<seq<string>>, conditional: bool, decision: nat, via: Option<nat>, k: nat)
    ensures var b := BuildBlocks(blocks, conditional, decision, via, k);
      Consecutive(Targets(b.edges), k, b.next)
  {
    if blocks != [] {
      var prefix := blocks[..|blocks| - 1];
      var x := blocks[|blocks| - 1];
      BuildBlocksTargets(prefix, conditional, decision, via, k);
      var p := BuildBlocks(prefix, conditional, decision, via, k);
      var b := BuildBlocks(blocks, conditional, decision, via, k);
      assert b == AddBlock(p, x, conditional, decision, via);
      if GivesEdge(x, conditional) {
        assert b.edges[..|b.edges| - 1] == p.edges;
        if GivesNode(x, conditional) {
          assert Targets(b.edges) == Targets(p.edges) + [p.next];
        } else {
          assert Targets(b.edges) == Targets(p.edges);
        }
      } else {
        assert b == p;
      }
    }
  }

  /** Skip-on-malformed: a block that yields no edge changes nothing, wherever it stands. */
  lemma {:induction false} MalformedBlockIgnored(before: seq<seq<string>>, x: seq<string>, after: seq<seq<string>>,
                                                 conditional: bool, decision: nat, via: Option<nat>, k: nat)
    requires !GivesEdge(x, conditional)
    ensures BuildBlocks(before + [x] + after, conditional, decision, via, k)
         == BuildBlocks(before + after, conditional, decision, via, k)
  {
    if after == [] {
      assert (before + [x] + after)[..|before|] == before;
      assert before + after == before;
    } else {
      var a' := after[..|after| - 1];
      var y := after[|after| - 1];
      MalformedBlockIgnored(before, x, a', conditional, decision, via, k);
      assert (before + [x] + after)[..|before + [x] + after| - 1] == before + [x] + a';
      assert (before + after)[..|before + after| - 1] == before + a';
    }
  }

  /**
   * The loop over the blocks of one region: outcome node lines and connection
   * lines, in block order, and the node counter after the region.
   */
  method EmitBlocks(blocks: seq<seq<string>>, conditional: bool, decision: nat, via: Option<nat>, counter: nat, endId: string)
    returns (nodeLines: seq<string>, connectionLines: seq<string>, next: nat)
    ensures var b := BuildBlocks(blocks, conditional, decision, via, counter);
      nodeLines == NodeLines(b.outcomes) && connectionLines == EdgeLines(b.edges, endId) && next == b.next
  {
    nodeLines, connectionLines, next := [], [], counter;
    for i := 0 to |blocks|
      invariant var b := BuildBlocks(blocks[..i], conditional, decision, via, counter);
        nodeLines == NodeLines(b.outcomes) && connectionLines == EdgeLines(b.edges, endId) && next == b.next
    {
      var block := blocks[i];
      ghost var prev := BuildBlocks(blocks[..i], conditional, decision, via, counter);
      assert blocks[..i + 1][..i] == blocks[..i];
      assert BuildBlocks(blocks[..i + 1], conditional, decision, via, counter) == AddBlock(prev, block, conditional, decision, via);
      if conditional {
        if |block| == 3 {
          var outcome := next;
          next := next + 1;
          NodeLinesSnoc(prev.outcomes, Node(outcome, block[2], Rectangle));
          EdgeLinesSnoc(prev.edges, Edge(decision, via, Some(block[1]), Some(outcome)), endId);
          nodeLines := nodeLines + [NodeLine(Node(outcome, block[2], Rectangle))];
          connectionLines := connectionLines + [EdgeLine(Edge(decision, via, Some(block[1]), Some(outcome)), endId)];
        } else if |block| == 2 {
          EdgeLinesSnoc(prev.edges, Edge(decision, via, Some(block[1]), None), endId);
          connectionLines := connectionLines + [EdgeLine(Edge(decision, via, Some(block[1]), None), endId)];
        }
      } else {
        if |block| == 2 {
          var outcome := next;
          next := next + 1;
          NodeLinesSnoc(prev.outcomes, Node(outcome, block[1], Rectangle));
          EdgeLinesSnoc(prev.edges, Edge(decision, via, None, Some(outcome)), endId);
          nodeLines := nodeLines + [NodeLine(Node(outcome, block[1], Rectangle))];
          connectionLines := connectionLines + [EdgeLine(Edge(decision, via, None, Some(outcome)), endId)];
        }
      }
    }
    assert blocks[..|blocks|] == blocks;
  }
}
