# parseBPMN, modelled in Dafny

The repository turns a plain-text process sketch into the source text of a
Mermaid `graph TD` flowchart. It has two versions of the compiler, both
called `parseBPMN`:

* **The pool-based compiler** (`src/utils/parseBPMN.js`). It scans the
  trimmed lines of the sketch one by one:
  * a line ending in `:` opens a named pool;
  * a blank line closes the pending block, once a pool is open (before the first
    header a blank line changes nothing, so the lines before it and after it
    end up in one block);
  * any other line joins the pending block.

  Each pool that has blocks becomes one `subgraph <name> ... end` region.
  The region's decision node is built from the first line of its first
  block: a diamond when that line ends in `?`, a rectangle otherwise. Each
  block then adds an outcome node and an edge, according to its line count.
  One node counter `n1, n2, ...` runs through the whole document.
* **The group-by-first-line compiler** (the `parseBPMN` function of
  `src/BPMNSketchMiner.jsx`). It cuts the sketch at blank lines, trims the
  lines and groups the blocks by their exact first line, in order of first
  appearance. Each group becomes one region named `Branch With Conditions`
  or `Branch Without Conditions`. Conditional groups also get a branch-start
  node `x<j>`, from a second counter.

The Dafny modules follow that structure:

| module | file | what it holds |
|---|---|---|
| `Wrappers` | `text.dfy` | `Option` |
| `Text` | `text.dfy` | the JavaScript string built-ins the compilers use: `split`, `trim`, `endsWith`, `join`, `replace(/ /g, '_')`, and the decimal text of a counter |
| `Mermaid` | `mermaid.dfy` | the emitted syntax: node and edge lines, one region's lines, the document |
| `Branches` | `branches.dfy` | the per-block rule both compilers share, and the loop over a region's blocks |
| `PoolParser` | `pool_parser.dfy` | the pool-based compiler |
| `SketchMiner` | `sketch_miner.dfy` | the group-by-first-line compiler |

Modelling choices:

* **Loops are methods.** Each loop of the source (the line scanner, the
  grouping loop with its `groupMap`, the loops over regions and blocks) is a
  Dafny `method` with a `for` loop. It is proved equal to a specification
  function written as a fold over the input prefix.
* **Properties are lemmas.** The properties of the compilers are proved as
  lemmas about those specification functions. The regions are first built
  as structured values (`Mermaid.Cluster`, with numeric ids) and then
  serialized, so id freshness and layout can be stated on the structure.
* **A kept quirk.** Every conditional group gets the same region name, so
  all of them share the end marker `EndBranch_With_Conditions`, and likewise
  for non-conditional groups. The model keeps this exactly as the source has
  it.

## Model

| member | source | states |
|---|---|---|
| Text.SplitJoin | src/utils/parseBPMN.js:3 | joining the pieces of `split('\n')` with `\n` gives back the text, so splitting into lines loses nothing |
| Text.TrimEmpty | src/utils/parseBPMN.js:18-19 | a line trims to the empty string exactly when every character of it is whitespace (both directions) |
| Text.TrimIdempotent | src/utils/parseBPMN.js:18 | trimming an already trimmed line changes nothing |
| Text.NatToStringInjective | src/utils/parseBPMN.js:70 | two counters with the same decimal text are equal, so distinct ids print as distinct `n<k>` / `x<j>` names |
| Mermaid.ClusterLayout | src/utils/parseBPMN.js:58-114 | a region's lines: `subgraph <name>` first, then the decision node, then the branch-start and outcome nodes. Next comes exactly one end-marker line, right after the node lines, then the edge lines, and a single `end` last. The opening and closing lines occur once each. |
| Branches.BuildBlocksNodes | src/utils/parseBPMN.js:81-106 | one outcome node per block that gives one (3 lines if conditional, 2 if not), labelled with the block's last line, with ids `k, k+1, ...` in block order; the counter ends just past them |
| Branches.BuildBlocksEdges | src/utils/parseBPMN.js:81-106 | one edge per block that gives one (3 or 2 lines if conditional, 2 if not), in block order, from the decision node through `via`. It is labelled with the condition line exactly when the region is conditional, and passes through an outcome node exactly when the block gives one. |
| Branches.BuildBlocksTargets | src/utils/parseBPMN.js:86-103 | every outcome node is entered by exactly one edge, in allocation order |
| Branches.MalformedBlockIgnored | src/utils/parseBPMN.js:83-105 | a block whose line count gives no edge changes neither the nodes, the edges nor the counter, wherever it stands among the others |
| Branches.EmitBlocks | src/BPMNSketchMiner.jsx:78-108 | the loop over a region's blocks yields exactly the specified outcome node lines and connection lines, in block order, and the counter after them (shared by both compilers) |
| PoolParser.SplitPools | src/utils/parseBPMN.js:24-36 | the pools carry the names of the header lines (without the colon), in input order, and every block is non-empty and holds only trimmed, non-blank, non-header lines |
| PoolParser.ScanPools | src/utils/parseBPMN.js:3-46 | the line-scanning loop with `pushBlock` computes exactly the specified pools |
| PoolParser.SplitPoolsOfText | src/utils/parseBPMN.js:9-46 | round trip: writing well-formed pools out (header line, then each block followed by a blank line) and scanning them back gives the same pools |
| PoolParser.SplitPoolsIgnoresIndentation | src/utils/parseBPMN.js:18 | two sketches whose lines trim alike give the same pools |
| PoolParser.NoContentLost | src/utils/parseBPMN.js:9-46 | once the sketch has a header line, the pools' blocks read one after another are exactly the trimmed content lines of the sketch, in input order: the scanner drops, duplicates and reorders none of them |
| PoolParser.HeaderClosesPool | src/utils/parseBPMN.js:24-31 | a header line that follows content lines of an open pool commits them as that pool's last block, and the pool keeps its place among the final pools |
| PoolParser.LeadingLinesJoinFirstBlock | src/utils/parseBPMN.js:9-14 | content lines before the first header are kept in the pending block and become the leading lines of the first pool's first block |
| PoolParser.PoolCluster | src/utils/parseBPMN.js:53-104 | a pool's region is titled by the pool name and has decision node `n<k>` with the first block's first line, a diamond exactly when that line ends in `?`. It has no branch-start node, one consecutive id per block that gives an outcome node, and one edge per block that gives an edge. |
| PoolParser.DocumentNodeIds | src/utils/parseBPMN.js:49-103 | the node ids of the whole document run `k, k+1, ...` in declaration order, so none is used twice |
| PoolParser.EmptyPoolIgnored | src/utils/parseBPMN.js:61-63 | a pool without blocks contributes no region and consumes no id, wherever it stands |
| PoolParser.RegionsFollowPools | src/utils/parseBPMN.js:51-63 | the regions are titled by the names of the pools that have blocks, in pool order |
| PoolParser.NoHeaderBareOutput | src/utils/parseBPMN.js:43-48 | a sketch with no line ending in `:` gives no pool, and the output is exactly `graph TD\n` |
| PoolParser.EmitPool | src/utils/parseBPMN.js:51-115 | one pool's loop body gives nothing, with the counter unchanged, when the pool has no blocks; otherwise it gives exactly the text of the pool's region and the counter after it |
| PoolParser.ParseBPMN | src/utils/parseBPMN.js:1-118 | the compiler returns exactly the specified document, which begins with `graph TD\n` |
| SketchMiner.RawBlocksNoBlank | src/BPMNSketchMiner.jsx:25 | no block of the blank-line split holds a blank line |
| SketchMiner.RawBlocksKeepLines | src/BPMNSketchMiner.jsx:25 | the blocks of the blank-line split hold every non-blank line, in input order: the split loses and reorders nothing |
| SketchMiner.RawBlocksRejoin | src/BPMNSketchMiner.jsx:25 | the blocks are cut exactly at the blank lines: there is one more block than there are blank lines, and writing the blocks out with the blank lines between them gives back the input lines |
| SketchMiner.RejoinRawBlocks | src/BPMNSketchMiner.jsx:25 | round trip: blocks without blank lines, written out with blank lines between them, split back into the same blocks |
| SketchMiner.CleanLines | src/BPMNSketchMiner.jsx:30-33 | every kept line of a block is trimmed and non-empty |
| SketchMiner.CleanLinesKeep | src/BPMNSketchMiner.jsx:30-33 | cleaning a block keeps exactly its non-blank lines, each trimmed, in order |
| SketchMiner.GroupedSpec | src/BPMNSketchMiner.jsx:35-41 | the groups' texts are the first lines of the non-empty blocks, each at its first occurrence and in that order. Each group holds exactly the blocks with its text as first line, in input order. |
| SketchMiner.GroupTextsDistinct | src/BPMNSketchMiner.jsx:36-40 | no two groups share a decision text |
| SketchMiner.BlockInItsGroup | src/BPMNSketchMiner.jsx:35-41 | every non-empty block lands in the group named by its first line |
| SketchMiner.NoBlocksNoGroups | src/BPMNSketchMiner.jsx:34 | when every block cleans to nothing, no group is formed |
| SketchMiner.GroupBlocks | src/BPMNSketchMiner.jsx:29-42 | the grouping loop with its `groupMap` computes exactly the specified groups; the map always agrees with a first-occurrence search |
| SketchMiner.GroupCluster | src/BPMNSketchMiner.jsx:51-73 | a group's region is named by its kind alone and has decision node `n<k>` with the group's text, a diamond exactly when the text ends in `?`. It has branch-start node `x<j>` exactly when the group is conditional, and then the branch counter advances by one. Every edge leaves the decision node through it, with one consecutive id per block that gives an outcome node. |
| SketchMiner.DocumentNodeIds | src/BPMNSketchMiner.jsx:62-102 | the node ids of the whole document run `k, k+1, ...` in declaration order, so none is used twice |
| SketchMiner.DocumentBranchIds | src/BPMNSketchMiner.jsx:69-73 | the branch-start ids run `j, j+1, ...`, one per conditional group, so none is used twice |
| SketchMiner.RegionsFollowGroups | src/BPMNSketchMiner.jsx:49-66 | one region per group, in group order, each with its group's decision text, its kind's name, and a branch-start node exactly when conditional |
| SketchMiner.BlankSketch | src/BPMNSketchMiner.jsx:25-44 | a sketch whose lines are all blank compiles to exactly `graph TD\n` |
| SketchMiner.EmitGroup | src/BPMNSketchMiner.jsx:49-116 | one group's loop body gives exactly the text of the group's region and both counters after it |
| SketchMiner.ParseBPMN | src/BPMNSketchMiner.jsx:23-119 | the compiler returns exactly the specified document, which begins with `graph TD\n` |

## Left out

- The `BPMNSketchMiner` React component (`src/BPMNSketchMiner.jsx:121-165`), `src/BPSketch.jsx`, `src/components/ui/card.jsx` and `src/index.js`: user interface and DOM wiring, with no logic of the compilers in them.
- The Mermaid renderer: only the emitted text is modelled.
- Text.Trim: strips ASCII whitespace only (space, tab, line feed, carriage return, vertical tab, form feed). JavaScript's `trim` also strips the other Unicode spaces and line terminators. The same set stands in for `\s` in the group-by-first-line compiler.
- SketchMiner.RawBlocks: `text.split(/\n\s*\n/)` is modelled as a cut of the line list at blank lines, not as a regular-expression match.
  - The raw blocks can differ from the regex's pieces in two ways. A blank first or last line gives an empty block where the regex gives none. A run of k ≥ 2 blank lines gives k − 1 empty blocks between its neighbours, where the regex gives none: the model cuts `a`, blank, blank, `b` into `[a]`, `[]`, `[b]`, the regex into `a` and `b`.
  - A whitespace-only first or last line is a cut in the model, while the regex keeps it inside the first or last piece. It cleans away in both forms.
  - The cleaned, non-empty blocks agree. Every whitespace-only line between two line breaks is matched by the regex and is a cut in the model. Every non-blank line ends up in a block of both forms. Empty blocks are skipped.
  - This agreement is argued here, not proved.
- The concrete scenario of `src/utils/parseBPMN.test.js` is not replayed as a lemma. Evaluating `trim` and `split` on a concrete multi-line text is beyond what the verifier can unfold. The general round trip `PoolParser.SplitPoolsOfText`, the layout lemma `Mermaid.ClusterLayout` and the id lemmas state the structural properties: which lines appear, in which order, with which ids. The text of each node, edge and end-marker line is given only by the definitions of `Mermaid.NodeLine`, `Mermaid.EdgeLine` and `Mermaid.EndMarkerLine`, written to the source's template strings; no lemma states it separately.
- Counters are unbounded naturals. JavaScript numbers stop counting exactly beyond 2^53, which no sketch reaches.
- Nothing is read or written: the sketch text is the parameter and the Mermaid text is the result.
