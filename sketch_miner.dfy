/**
 * The group-by-first-line compiler of `src/BPMNSketchMiner.jsx`: the sketch is
 * cut into blocks at blank lines, blocks whose first (decision) line is the
 * same are grouped in order of first appearance, and each group becomes one
 * Mermaid region, conditional when its decision text ends in `?`. One node
 * counter and one branch-start counter run through the whole document.
 */
module SketchMiner {
  import opened Wrappers
  import opened Text
  import opened Mermaid
  import opened Branches

  /** A group: the shared decision text and its blocks of cleaned lines, in input order. */
  datatype Group = Group(decisionText: string, blocks: seq<seq<string>>)

  /** A line that holds nothing but whitespace. */
  predicate IsBlank(line: string) {
    Trim(line) == []
  }

  /*
   * Raw blocks: the lines between blank lines.
   */

  /**
   * `text.split(/\n\s*\n/)`, on the text's lines: every blank line closes the
   * current block and opens a new one.
   */
  function RawBlocks(lines: seq<string>): (r: seq<seq<string>>)
    ensures |r| >= 1
  {
    if lines == [] then [[]]
    else
      var rs := RawBlocks(lines[..|lines| - 1]);
      var line := lines[|lines| - 1];
      if IsBlank(line) then rs + [[]]
      else rs[..|rs| - 1] + [rs[|rs| - 1] + [line]]
  }

  /** The lines that are not blank, in input order. */
  function NonBlank(lines: seq<string>): seq<string> {
    if lines == [] then []
    else
      var line := lines[|lines| - 1];
      NonBlank(lines[..|lines| - 1]) + (if IsBlank(line) then [] else [line])
  }

  /** A line of a raw block is never blank. */
  lemma {:induction false} RawBlockLine(lines: seq<string>, i: nat, j: nat)
    requires i < |RawBlocks(lines)| && j < |RawBlocks(lines)[i]|
    ensures !IsBlank(RawBlocks(lines)[i][j])
  {
    var prefix := lines[..|lines| - 1];
    var line := lines[|lines| - 1];
    var rs := RawBlocks(prefix);
    var r := RawBlocks(lines);
    if IsBlank(line) {
      assert r == rs + [[]];
      assert i < |rs| && r[i] == rs[i];
      RawBlockLine(prefix, i, j);
    } else {
      var last := rs[|rs| - 1];
      assert r == rs[..|rs| - 1] + [last + [line]];
      if i < |rs| - 1 {
        assert r[i] == rs[i];
        RawBlockLine(prefix, i, j);
      } else if j < |last| {
        assert r[i][j] == last[j];
        RawBlockLine(prefix, |rs| - 1, j);
      }
    }
  }

  /** No raw block holds a blank line. */
  lemma RawBlocksNoBlank(lines: seq<string>)
    ensures var r := RawBlocks(lines);
      forall i, j :: 0 <= i < |r| && 0 <= j < |r[i]| ==> !IsBlank(r[i][j])
  {
    var r := RawBlocks(lines);
    forall i, j | 0 <= i < |r| && 0 <= j < |r[i]| ensures !IsBlank(r[i][j]) {
      RawBlockLine(lines, i, j);
    }
  }

  /** The raw blocks hold every non-blank line, in input order: cutting at blank lines loses and reorders nothing. */
  lemma {:induction false} RawBlocksKeepLines(lines: seq<string>)
    ensures Flatten(RawBlocks(lines)) == NonBlank(lines)
  {
    if lines != [] {
      var prefix := lines[..|lines| - 1];
      var line := lines[|lines| - 1];
      RawBlocksKeepLines(prefix);
      var rs := RawBlocks(prefix);
      if IsBlank(line) {
        assert RawBlocks(lines) == rs + [[]];
        assert NonBlank(lines) == NonBlank(prefix);
        FlattenSnoc(rs, []);
      } else {
        var init := rs[..|rs| - 1];
        var last := rs[|rs| - 1];
        assert RawBlocks(lines) == init + [last + [line]];
        assert NonBlank(lines) == NonBlank(prefix) + [line];
        FlattenSnoc(init, last);
        FlattenSnoc(init, last + [line]);
        assert init + [last] == rs;
      }
    }
  }

  /** The blank lines, in input order: the cuts between raw blocks. */
  function Blanks(lines: seq<string>): (r: seq<string>)
    ensures forall i :: 0 <= i < |r| ==> IsBlank(r[i])
  {
    if lines == [] then []
    else
      var line := lines[|lines| - 1];
      Blanks(lines[..|lines| - 1]) + (if IsBlank(line) then [line] else [])
  }

  /** Blocks written out one after another, with one separator line between neighbours. */
  function Rejoin(blocks: seq<seq<string>>, seps: seq<string>): seq<string>
    requires |blocks| == |seps| + 1
  {
    if |blocks| == 1 then blocks[0]
    else Rejoin(blocks[..|blocks| - 1], seps[..|seps| - 1]) + [seps[|seps| - 1]] + blocks[|blocks| - 1]
  }

  /** Lengthening the last block lengthens the written-out text at its end. */
  lemma RejoinExtendLast(blocks: seq<seq<string>>, seps: seq<string>, ys: seq<string>)
    requires |blocks| == |seps| + 1
    ensures var n := |blocks|;
      Rejoin(blocks[..n - 1] + [blocks[n - 1] + ys], seps) == Rejoin(blocks, seps) + ys
  {
    var n := |blocks|;
    var bs := blocks[..n - 1] + [blocks[n - 1] + ys];
    if n > 1 {
      assert bs[..n - 1] == blocks[..n - 1];
    }
  }

  /** A blank line after some lines opens a new, empty raw block. */
  lemma RawBlocksCut(lines: seq<string>, sep: string)
    requires IsBlank(sep)
    ensures RawBlocks(lines + [sep]) == RawBlocks(lines) + [[]]
  {
    assert (lines + [sep])[..|lines|] == lines;
  }

  /** A new empty last block after a separator adds just that separator. */
  lemma RejoinCut(blocks: seq<seq<string>>, seps: seq<string>, sep: string)
    requires |blocks| == |seps| + 1
    ensures Rejoin(blocks + [[]], seps + [sep]) == Rejoin(blocks, seps) + [sep]
  {
    var r := blocks + [[]];
    assert r[..|r| - 1] == blocks;
    assert (seps + [sep])[..|seps|] == seps;
  }

  /**
   * The cuts fall exactly at the blank lines: there is one more raw block than
   * there are blank lines, and writing the raw blocks out with the blank lines
   * between them gives back the lines. As no raw block holds a blank line
   * (`RawBlocksNoBlank`), this fixes the raw blocks completely.
   */
  lemma {:induction false} RawBlocksRejoin(lines: seq<string>)
    ensures |RawBlocks(lines)| == |Blanks(lines)| + 1
    ensures Rejoin(RawBlocks(lines), Blanks(lines)) == lines
  {
    if lines != [] {
      var prefix := lines[..|lines| - 1];
      var line := lines[|lines| - 1];
      RawBlocksRejoin(prefix);
      var rs := RawBlocks(prefix);
      var bl := Blanks(prefix);
      assert lines == prefix + [line];
      if IsBlank(line) {
        RawBlocksCut(prefix, line);
        assert Blanks(lines) == bl + [line];
        RejoinCut(rs, bl, line);
      } else {
        assert RawBlocks(lines) == rs[..|rs| - 1] + [rs[|rs| - 1] + [line]];
        assert Blanks(lines) == bl;
        RejoinExtendLast(rs, bl, [line]);
      }
    }
  }

  /** No line of the block is blank. */
  predicate NoBlankLines(block: seq<string>) {
    forall j :: 0 <= j < |block| ==> !IsBlank(block[j])
  }

  /** The blocks with `ys` added to the end of the last one. */
  function ExtendLast(blocks: seq<seq<string>>, ys: seq<string>): seq<seq<string>>
    requires |blocks| >= 1
  {
    blocks[..|blocks| - 1] + [blocks[|blocks| - 1] + ys]
  }

  lemma ExtendLastTwice(blocks: seq<seq<string>>, a: seq<string>, b: seq<string>)
    requires |blocks| >= 1
    ensures ExtendLast(ExtendLast(blocks, a), b) == ExtendLast(blocks, a + b)
  {
    var n := |blocks|;
    var r := ExtendLast(blocks, a);
    assert r[..n - 1] == blocks[..n - 1];
    assert r[n - 1] + b == blocks[n - 1] + (a + b);
  }

  /** A non-blank line continues the last raw block. */
  lemma RawBlocksExtend(lines: seq<string>, y: string)
    requires !IsBlank(y)
    ensures RawBlocks(lines + [y]) == ExtendLast(RawBlocks(lines), [y])
  {
    assert (lines + [y])[..|lines|] == lines;
  }

  /** Non-blank lines after the last cut continue the last raw block. */
  lemma {:induction false} RawBlocksAppend(lines: seq<string>, ys: seq<string>)
    requires NoBlankLines(ys)
    ensures RawBlocks(lines + ys) == ExtendLast(RawBlocks(lines), ys)
  {
    var rs := RawBlocks(lines);
    if ys == [] {
      var n := |rs|;
      assert lines + ys == lines;
      assert rs[n - 1] + ys == rs[n - 1];
      assert rs[..n - 1] + [rs[n - 1]] == rs;
    } else {
      var ys' := ys[..|ys| - 1];
      var y := ys[|ys| - 1];
      RawBlocksAppend(lines, ys');
      var zs := lines + ys';
      assert lines + ys == zs + [y];
      assert ys' + [y] == ys;
      RawBlocksExtend(zs, y);
      ExtendLastTwice(rs, ys', [y]);
    }
  }

  /** Non-blank lines after a cut form the new last raw block. */
  lemma RawBlocksAfterCut(x: seq<string>, sep: string, last: seq<string>)
    requires IsBlank(sep) && NoBlankLines(last)
    ensures RawBlocks(x + [sep] + last) == RawBlocks(x) + [last]
  {
    RawBlocksCut(x, sep);
    RawBlocksAppend(x + [sep], last);
    var r := RawBlocks(x) + [[]];
    assert r[..|r| - 1] == RawBlocks(x);
    assert r[|r| - 1] + last == last;
  }

  /**
   * Round trip: blocks without blank lines, written out with blank lines
   * between them, split back into the same blocks.
   */
  lemma {:induction false} RejoinRawBlocks(blocks: seq<seq<string>>, seps: seq<string>)
    requires |blocks| == |seps| + 1
    requires forall i :: 0 <= i < |blocks| ==> NoBlankLines(blocks[i])
    requires forall i :: 0 <= i < |seps| ==> IsBlank(seps[i])
    ensures RawBlocks(Rejoin(blocks, seps)) == blocks
  {
    var n := |blocks|;
    var last := blocks[n - 1];
    assert NoBlankLines(last);
    if n == 1 {
      RawBlocksAppend([], last);
      assert [] + last == last;
      assert blocks == [last];
    } else {
      var init := blocks[..n - 1];
      var seps' := seps[..|seps| - 1];
      var sep := seps[|seps| - 1];
      assert forall i :: 0 <= i < |init| ==> init[i] == blocks[i];
      RejoinRawBlocks(init, seps');
      var x := Rejoin(init, seps');
      assert Rejoin(blocks, seps) == x + [sep] + last;
      RawBlocksAfterCut(x, sep, last);
      assert init + [last] == blocks;
    }
  }

  /** One raw block's lines, each trimmed, with the empty ones dropped. */
  function CleanLines(raw: seq<string>): (r: seq<string>)
    ensures forall i :: 0 <= i < |r| ==> r[i] != [] && Trimmed(r[i])
  {
    if raw == [] then []
    else
      var line := Trim(raw[|raw| - 1]);
      CleanLines(raw[..|raw| - 1]) + (if line != [] then [line] else [])
  }

  /** Cleaning keeps exactly the non-blank lines of a block, each trimmed, in order. */
  lemma {:induction false} CleanLinesKeep(raw: seq<string>)
    ensures var r := CleanLines(raw);
      |r| == |NonBlank(raw)| && forall i :: 0 <= i < |r| ==> r[i] == Trim(NonBlank(raw)[i])
  {
    if raw != [] {
      var prefix := raw[..|raw| - 1];
      var line := raw[|raw| - 1];
      CleanLinesKeep(prefix);
      if IsBlank(line) {
        assert CleanLines(raw) == CleanLines(prefix);
        assert NonBlank(raw) == NonBlank(prefix);
      } else {
        assert CleanLines(raw) == CleanLines(prefix) + [Trim(line)];
        assert NonBlank(raw) == NonBlank(prefix) + [line];
      }
    }
  }

  /** The cleaned raw blocks that are not empty, in input order: the blocks that get grouped. */
  function Cleaned(raws: seq<seq<string>>): (r: seq<seq<string>>)
    ensures forall i :: 0 <= i < |r| ==> r[i] != []
  {
    if raws == [] then []
    else
      var lines := CleanLines(raws[|raws| - 1]);
      Cleaned(raws[..|raws| - 1]) + (if lines != [] then [lines] else [])
  }

  /*
   * Grouping by decision text.
   */

  function Texts(gs: seq<Group>): (r: seq<string>)
    ensures |r| == |gs| && forall i :: 0 <= i < |gs| ==> r[i] == gs[i].decisionText
  {
    if gs == [] then [] else Texts(gs[..|gs| - 1]) + [gs[|gs| - 1].decisionText]
  }

  /** The first position of `t` in `s`, if any: what `groupMap.get` answers. */
  function Find(s: seq<string>, t: string): (r: Option<nat>)
    ensures r.Some? ==> r.value < |s| && s[r.value] == t && forall i :: 0 <= i < r.value ==> s[i] != t
    ensures r.None? ==> forall i :: 0 <= i < |s| ==> s[i] != t
  {
    if s == [] then None
    else if s[0] == t then Some(0)
    else
      var rest := Find(s[1..], t);
      if rest.Some? then Some(rest.value + 1) else None
  }

  /** One cleaned block joins the group of its first line, or opens a new group at the end. */
  function AddToGroups(gs: seq<Group>, lines: seq<string>): seq<Group> {
    if lines == [] then gs
    else
      var decisionText := lines[0];
      var found := Find(Texts(gs), decisionText);
      if found.Some? then
        var g := gs[found.value];
        gs[found.value := g.(blocks := g.blocks + [lines])]
      else
        gs + [Group(decisionText, [lines])]
  }

  /** The groups after the given raw blocks. */
  function Grouped(raws: seq<seq<string>>): seq<Group> {
    if raws == [] then []
    else AddToGroups(Grouped(raws[..|raws| - 1]), CleanLines(raws[|raws| - 1]))
  }

  /** The first lines of the blocks, in order. */
  function Heads(bs: seq<seq<string>>): seq<string> {
    if bs == [] then []
    else
      var b := bs[|bs| - 1];
      Heads(bs[..|bs| - 1]) + (if b != [] then [b[0]] else [])
  }

  /** Every element of `s` at its first occurrence, in order. */
  function Dedup(s: seq<string>): seq<string> {
    if s == [] then []
    else
      var x := s[|s| - 1];
      Dedup(s[..|s| - 1]) + (if x in s[..|s| - 1] then [] else [x])
  }

  /** The blocks whose first line is `t`, in order. */
  function WithHead(bs: seq<seq<string>>, t: string): seq<seq<string>> {
    if bs == [] then []
    else
      var b := bs[|bs| - 1];
      WithHead(bs[..|bs| - 1], t) + (if b != [] && b[0] == t then [b] else [])
  }

  lemma {:induction false} DedupMembers(s: seq<string>)
    ensures forall x :: x in Dedup(s) <==> x in s
  {
    if s != [] {
      DedupMembers(s[..|s| - 1]);
      assert s == s[..|s| - 1] + [s[|s| - 1]];
    }
  }

  /** No text is kept twice. */
  lemma {:induction false} DedupDistinctAt(s: seq<string>, i: nat, j: nat)
    requires i < j < |Dedup(s)|
    ensures Dedup(s)[i] != Dedup(s)[j]
  {
    var p := s[..|s| - 1];
    var x := s[|s| - 1];
    var d := Dedup(s);
    var dp := Dedup(p);
    if x in p {
      assert d == dp;
      DedupDistinctAt(p, i, j);
    } else {
      assert d == dp + [x];
      DedupMembers(p);
      if j < |dp| {
        DedupDistinctAt(p, i, j);
      } else {
        assert d[i] == dp[i] && d[j] == x;
        assert dp[i] in dp;
      }
    }
  }

  lemma DedupDistinct(s: seq<string>)
    ensures var d := Dedup(s); forall i, j :: 0 <= i < j < |d| ==> d[i] != d[j]
  {
    var d := Dedup(s);
    forall i, j | 0 <= i < j < |d| ensures d[i] != d[j] {
      DedupDistinctAt(s, i, j);
    }
  }

  lemma {:induction false} HeadsMembers(bs: seq<seq<string>>, t: string)
    requires t !in Heads(bs)
    ensures WithHead(bs, t) == []
  {
    if bs != [] {
      HeadsMembers(bs[..|bs| - 1], t);
    }
  }

  lemma HeadsSnoc(bs: seq<seq<string>>, lines: seq<string>)
    requires lines != []
    ensures Heads(bs + [lines]) == Heads(bs) + [lines[0]]
  {
    assert (bs + [lines])[..|bs|] == bs;
  }

  lemma WithHeadSnoc(bs: seq<seq<string>>, lines: seq<string>, t: string)
    requires lines != []
    ensures WithHead(bs + [lines], t) == WithHead(bs, t) + (if lines[0] == t then [lines] else [])
  {
    assert (bs + [lines])[..|bs|] == bs;
  }

  lemma DedupSnoc(s: seq<string>, x: string)
    ensures Dedup(s + [x]) == Dedup(s) + (if x in s then [] else [x])
  {
    assert (s + [x])[..|s|] == s;
  }

  /**
   * `gs` is the grouping of `bs`: one group per distinct first line, in order of
   * first appearance, each holding exactly the blocks that start with its text.
   */
  ghost predicate GroupsOf(gs: seq<Group>, bs: seq<seq<string>>) {
    && Texts(gs) == Dedup(Heads(bs))
    && forall i :: 0 <= i < |gs| ==> gs[i].blocks == WithHead(bs, gs[i].decisionText)
  }

  /** A block whose text has a group joins that group and leaves the others alone. */
  lemma AddToExisting(gs: seq<Group>, bs: seq<seq<string>>, lines: seq<string>, i: nat)
    requires GroupsOf(gs, bs) && lines != [] && Find(Texts(gs), lines[0]) == Some(i)
    ensures GroupsOf(AddToGroups(gs, lines), bs + [lines])
  {
    var d := lines[0];
    var hs := Heads(bs);
    HeadsSnoc(bs, lines);
    DedupMembers(hs);
    DedupSnoc(hs, d);
    assert d in Dedup(hs);
    var gs' := AddToGroups(gs, lines);
    assert gs' == gs[i := gs[i].(blocks := gs[i].blocks + [lines])];
    TextsUpdate(gs, i, lines);
    forall j | 0 <= j < |gs'| ensures gs'[j].blocks == WithHead(bs + [lines], gs'[j].decisionText) {
      WithHeadSnoc(bs, lines, gs[j].decisionText);
      if j != i {
        DedupDistinctAt(hs, if i < j then i else j, if i < j then j else i);
        assert gs'[j] == gs[j];
      }
    }
  }

  /** A block with a new text opens a group of its own at the end. */
  lemma AddToNew(gs: seq<Group>, bs: seq<seq<string>>, lines: seq<string>)
    requires GroupsOf(gs, bs) && lines != [] && Find(Texts(gs), lines[0]).None?
    ensures GroupsOf(AddToGroups(gs, lines), bs + [lines])
  {
    var d := lines[0];
    var hs := Heads(bs);
    HeadsSnoc(bs, lines);
    DedupMembers(hs);
    DedupSnoc(hs, d);
    assert d !in Dedup(hs);
    assert d !in hs;
    var g := Group(d, [lines]);
    var gs' := AddToGroups(gs, lines);
    assert gs' == gs + [g];
    TextsSnoc(gs, g);
    forall j | 0 <= j < |gs'| ensures gs'[j].blocks == WithHead(bs + [lines], gs'[j].decisionText) {
      if j < |gs| {
        assert gs'[j] == gs[j] && Texts(gs)[j] != d;
        WithHeadSnoc(bs, lines, gs[j].decisionText);
      } else {
        assert gs'[j] == g;
        WithHeadSnoc(bs, lines, d);
        HeadsMembers(bs, d);
      }
    }
  }

  /**
   * Grouping is exact: the groups' texts are the blocks' first lines without
   * repeats, in order of first appearance, and each group holds exactly the
   * blocks that start with its text, in input order.
   */
  lemma {:induction false} GroupedSpec(raws: seq<seq<string>>)
    ensures GroupsOf(Grouped(raws), Cleaned(raws))
  {
    if raws != [] {
      var prefix := raws[..|raws| - 1];
      GroupedSpec(prefix);
      var lines := CleanLines(raws[|raws| - 1]);
      var gs := Grouped(prefix);
      if lines == [] {
        assert Cleaned(raws) == Cleaned(prefix) && Grouped(raws) == gs;
      } else {
        assert Cleaned(raws) == Cleaned(prefix) + [lines];
        assert Grouped(raws) == AddToGroups(gs, lines);
        var found := Find(Texts(gs), lines[0]);
        if found.Some? {
          AddToExisting(gs, Cleaned(prefix), lines, found.value);
        } else {
          AddToNew(gs, Cleaned(prefix), lines);
        }
      }
    }
  }

  /** No two groups share a decision text. */
  lemma GroupTextsDistinct(raws: seq<seq<string>>)
    ensures var gs := Grouped(raws);
      forall i, j :: 0 <= i < j < |gs| ==> gs[i].decisionText != gs[j].decisionText
  {
    GroupedSpec(raws);
    DedupDistinct(Heads(Cleaned(raws)));
    var gs := Grouped(raws);
    assert forall i :: 0 <= i < |gs| ==> gs[i].decisionText == Texts(gs)[i];
  }

  /** Every block lands in the group named by its first line. */
  lemma BlockInItsGroup(raws: seq<seq<string>>, k: nat)
    requires k < |Cleaned(raws)|
    ensures exists i ::
              && 0 <= i < |Grouped(raws)|
              && Grouped(raws)[i].decisionText == Cleaned(raws)[k][0]
              && Cleaned(raws)[k] in Grouped(raws)[i].blocks
  {
    var gs := Grouped(raws);
    var bs := Cleaned(raws);
    var b := bs[k];
    GroupedSpec(raws);
    HeadOfBlock(bs, k);
    DedupMembers(Heads(bs));
    assert b[0] in Texts(gs);
    var i :| 0 <= i < |gs| && Texts(gs)[i] == b[0];
    WithHeadHolds(bs, k);
    assert gs[i].decisionText == b[0];
    assert gs[i].blocks == WithHead(bs, b[0]);
    assert 0 <= i < |gs| && gs[i].decisionText == b[0] && b in gs[i].blocks;
  }

  lemma {:induction false} HeadOfBlock(bs: seq<seq<string>>, k: nat)
    requires k < |bs| && bs[k] != []
    ensures bs[k][0] in Heads(bs)
  {
    if k < |bs| - 1 {
      HeadOfBlock(bs[..|bs| - 1], k);
    }
  }

  lemma {:induction false} WithHeadHolds(bs: seq<seq<string>>, k: nat)
    requires k < |bs| && bs[k] != []
    ensures bs[k] in WithHead(bs, bs[k][0])
  {
    if k < |bs| - 1 {
      WithHeadHolds(bs[..|bs| - 1], k);
    }
  }

  /** A sketch without any non-blank line has no groups. */
  lemma {:induction false} NoBlocksNoGroups(raws: seq<seq<string>>)
    requires Cleaned(raws) == []
    ensures Grouped(raws) == []
  {
    GroupedSpec(raws);
    assert Texts(Grouped(raws)) == [];
  }

  /*
   * The `rawBlocks.forEach` loop that fills `groupMap`.
   */

  /**
   * After appending a text not yet present, that text is found at `|s|` and
   * every other text where it was before.
   */
  lemma {:induction false} FindAfterAppend(s: seq<string>, d: string, t: string)
    requires Find(s, d).None?
    ensures Find(s + [d], t) == if t == d then Some(|s|) else Find(s, t)
  {
    if s == [] {
      assert [] + [d] == [d];
    } else {
      assert s[0] != d;
      assert Find(s[1..], d).None?;
      FindAfterAppend(s[1..], d, t);
      assert (s + [d])[1..] == s[1..] + [d];
    }
  }

  lemma TextsUpdate(gs: seq<Group>, i: nat, lines: seq<string>)
    requires i < |gs|
    ensures Texts(gs[i := gs[i].(blocks := gs[i].blocks + [lines])]) == Texts(gs)
  {
  }

  lemma TextsSnoc(gs: seq<Group>, g: Group)
    ensures Texts(gs + [g]) == Texts(gs) + [g.decisionText]
  {
    assert (gs + [g])[..|gs|] == gs;
  }

  /** `groupMap` agrees with a first-occurrence search in the groups' texts. */
  ghost predicate MapIndexes(groupMap: map<string, nat>, groups: seq<Group>) {
    forall t :: Find(Texts(groups), t) == (if t in groupMap then Some(groupMap[t]) else None)
  }

  /** Adding a block to an existing group keeps the map in step. */
  lemma MapIndexesUpdate(groupMap: map<string, nat>, groups: seq<Group>, idx: nat, lines: seq<string>)
    requires MapIndexes(groupMap, groups) && idx < |groups|
    ensures MapIndexes(groupMap, groups[idx := groups[idx].(blocks := groups[idx].blocks + [lines])])
  {
    TextsUpdate(groups, idx, lines);
  }

  /** Opening a group for a new text and recording its position keeps the map in step. */
  lemma MapIndexesSnoc(groupMap: map<string, nat>, groups: seq<Group>, lines: seq<string>)
    requires MapIndexes(groupMap, groups) && lines != [] && lines[0] !in groupMap
    ensures MapIndexes(groupMap[lines[0] := |groups|], groups + [Group(lines[0], [lines])])
  {
    var d := lines[0];
    var m := groupMap[d := |groups|];
    var g := Group(d, [lines]);
    TextsSnoc(groups, g);
    assert Find(Texts(groups), d).None?;
    forall t ensures Find(Texts(groups + [g]), t) == (if t in m then Some(m[t]) else None) {
      FindAfterAppend(Texts(groups), d, t);
    }
  }

  /** The map answers a lookup exactly as a first-occurrence search does. */
  lemma MapLookup(groupMap: map<string, nat>, groups: seq<Group>, lines: seq<string>)
    requires MapIndexes(groupMap, groups) && lines != []
    ensures AddToGroups(groups, lines)
         == if lines[0] in groupMap then
              var idx := groupMap[lines[0]];
              groups[idx := groups[idx].(blocks := groups[idx].blocks + [lines])]
            else groups + [Group(lines[0], [lines])]
    ensures lines[0] in groupMap ==> groupMap[lines[0]] < |groups|
  {
    assert Find(Texts(groups), lines[0]) == (if lines[0] in groupMap then Some(groupMap[lines[0]]) else None);
  }

  /** The `rawBlocks.forEach` loop: clean each raw block and file it under its decision text, through `groupMap`. */
  method GroupBlocks(rawBlocks: seq<seq<string>>) returns (groups: seq<Group>)
    ensures groups == Grouped(rawBlocks)
  {
    groups := [];
    var groupMap: map<string, nat> := map[];
    for i := 0 to |rawBlocks|
      invariant groups == Grouped(rawBlocks[..i])
      invariant MapIndexes(groupMap, groups)
    {
      assert rawBlocks[..i + 1][..i] == rawBlocks[..i];
      var lines := CleanLines(rawBlocks[i]);
      assert Grouped(rawBlocks[..i + 1]) == AddToGroups(groups, lines);
      if |lines| == 0 {
        continue;
      }
      var decisionText := lines[0];
      MapLookup(groupMap, groups, lines);
      if decisionText in groupMap {
        var idx := groupMap[decisionText];
        MapIndexesUpdate(groupMap, groups, idx, lines);
        groups := groups[idx := groups[idx].(blocks := groups[idx].blocks + [lines])];
      } else {
        MapIndexesSnoc(groupMap, groups, lines);
        groups := groups + [Group(decisionText, [lines])];
        groupMap := groupMap[decisionText := |groups| - 1];
      }
    }
    assert rawBlocks[..|rawBlocks|] == rawBlocks;
  }

  /*
   * One region per group.
   */

  const WithConditions: string := "Branch With Conditions"
  const WithoutConditions: string := "Branch Without Conditions"

  predicate Conditional(g: Group) {
    EndsWith(g.decisionText, '?')
  }

  /** The region of one group from node id `k` and branch id `j`, and both counters after it. */
  function BuildGroup(g: Group, k: nat, j: nat): (Cluster, nat, nat) {
    var conditional := Conditional(g);
    var name := if conditional then WithConditions else WithoutConditions;
    var branch := if conditional then Some(j) else None;
    var b := BuildBlocks(g.blocks, conditional, k, branch, k + 1);
    (Cluster(name, Node(k, g.decisionText, if conditional then Diamond else Rectangle), branch, b.outcomes, b.edges),
     b.next,
     if conditional then j + 1 else j)
  }

  /**
   * A group's region: named after its kind only, decision node `n<k>` with the
   * group's text (a diamond exactly when conditional), branch-start node
   * `x<j>` exactly when conditional, and every edge passing through it; the
   * outcome nodes take the next ids, one per block that gives one.
   */
  lemma GroupCluster(g: Group, k: nat, j: nat)
    ensures var (c, next, nextBranch) := BuildGroup(g, k, j);
      var conditional := Conditional(g);
      && c.name == (if conditional then "Branch With Conditions" else "Branch Without Conditions")
      && c.decision == Node(k, g.decisionText, if conditional then Diamond else Rectangle)
      && (c.branch.Some? <==> conditional)
      && (conditional ==> c.branch == Some(j) && nextBranch == j + 1)
      && (!conditional ==> nextBranch == j)
      && next == k + 1 + |NodeBlocks(g.blocks, conditional)|
      && Consecutive(OutcomeIds(c.outcomes), k + 1, next)
      && |c.edges| == |EdgeBlocks(g.blocks, conditional)|
      && (forall i :: 0 <= i < |c.edges| ==> c.edges[i].from == k && c.edges[i].via == c.branch)
  {
    var conditional := Conditional(g);
    var branch := if conditional then Some(j) else None;
    BuildBlocksNodes(g.blocks, conditional, k, branch, k + 1);
    BuildBlocksEdges(g.blocks, conditional, k, branch, k + 1);
  }

  /** The regions of the groups in order, from node id `k` and branch id `j`. */
  function BuildGroups(gs: seq<Group>, k: nat, j: nat): (r: (seq<Cluster>, nat, nat))
    ensures |r.0| == |gs|
  {
    if gs == [] then ([], k, j)
    else
      var prev := BuildGroups(gs[..|gs| - 1], k, j);
      var built := BuildGroup(gs[|gs| - 1], prev.1, prev.2);
      (prev.0 + [built.0], built.1, built.2)
  }

  /** The number of conditional groups. */
  function CountConditional(gs: seq<Group>): nat {
    if gs == [] then 0
    else CountConditional(gs[..|gs| - 1]) + (if Conditional(gs[|gs| - 1]) then 1 else 0)
  }

  /** Node ids run through the document: `k, k + 1, ...` in declaration order, none declared twice. */
  lemma {:induction false} DocumentNodeIds(gs: seq<Group>, k: nat, j: nat)
    ensures Consecutive(NodeIds(BuildGroups(gs, k, j).0), k, BuildGroups(gs, k, j).1)
  {
    if gs != [] {
      var prefix := gs[..|gs| - 1];
      var g := gs[|gs| - 1];
      DocumentNodeIds(prefix, k, j);
      var prev := BuildGroups(prefix, k, j);
      var built := BuildGroup(g, prev.1, prev.2);
      GroupCluster(g, prev.1, prev.2);
      var cs := prev.0 + [built.0];
      assert BuildGroups(gs, k, j) == (cs, built.1, built.2);
      assert cs[..|cs| - 1] == prev.0;
      assert NodeIds(cs) == NodeIds(prev.0) + [prev.1] + OutcomeIds(built.0.outcomes);
      ConsecutiveAppend(NodeIds(prev.0), [prev.1], k, prev.1, prev.1 + 1);
      ConsecutiveAppend(NodeIds(prev.0) + [prev.1], OutcomeIds(built.0.outcomes), k, prev.1 + 1, built.1);
    }
  }

  /** Branch-start ids run `j, j + 1, ...`, one per conditional group, none declared twice. */
  lemma {:induction false} DocumentBranchIds(gs: seq<Group>, k: nat, j: nat)
    ensures var (cs, _, nextBranch) := BuildGroups(gs, k, j);
      Consecutive(BranchIds(cs), j, nextBranch) && nextBranch == j + CountConditional(gs)
  {
    if gs != [] {
      var prefix := gs[..|gs| - 1];
      var g := gs[|gs| - 1];
      DocumentBranchIds(prefix, k, j);
      var prev := BuildGroups(prefix, k, j);
      var built := BuildGroup(g, prev.1, prev.2);
      var cs := prev.0 + [built.0];
      assert BuildGroups(gs, k, j) == (cs, built.1, built.2);
      assert cs[..|cs| - 1] == prev.0;
      if Conditional(g) {
        assert built.0.branch == Some(prev.2);
        assert BranchIds(cs) == BranchIds(prev.0) + [prev.2];
        ConsecutiveAppend(BranchIds(prev.0), [prev.2], j, prev.2, built.2);
      } else {
        assert built.0.branch == None;
        assert BranchIds(cs) == BranchIds(prev.0) + [];
        assert BranchIds(prev.0) + [] == BranchIds(prev.0);
      }
    }
  }

  /** The region of the `i`-th group carries that group's decision text and kind. */
  lemma {:induction false} RegionAt(gs: seq<Group>, k: nat, j: nat, i: nat)
    requires i < |gs|
    ensures var c := BuildGroups(gs, k, j).0[i];
      && c.decision.text == gs[i].decisionText
      && (c.branch.Some? <==> Conditional(gs[i]))
      && c.name == (if Conditional(gs[i]) then WithConditions else WithoutConditions)
  {
    var prefix := gs[..|gs| - 1];
    var prev := BuildGroups(prefix, k, j);
    var last := BuildGroup(gs[|gs| - 1], prev.1, prev.2).0;
    var cs := BuildGroups(gs, k, j).0;
    assert cs == prev.0 + [last];
    if i < |prefix| {
      RegionAt(prefix, k, j, i);
      assert cs[i] == prev.0[i];
      assert gs[i] == prefix[i];
    } else {
      assert cs[i] == last;
    }
  }

  /** One region per group, in group order, each carrying its group's decision text and kind. */
  lemma RegionsFollowGroups(gs: seq<Group>, k: nat, j: nat)
    ensures var cs := BuildGroups(gs, k, j).0;
      && |cs| == |gs|
      && forall i :: 0 <= i < |gs| ==>
           && cs[i].decision.text == gs[i].decisionText
           && (cs[i].branch.Some? <==> Conditional(gs[i]))
           && cs[i].name == (if Conditional(gs[i]) then WithConditions else WithoutConditions)
  {
    var cs := BuildGroups(gs, k, j).0;
    forall i | 0 <= i < |gs|
      ensures && cs[i].decision.text == gs[i].decisionText
              && (cs[i].branch.Some? <==> Conditional(gs[i]))
              && cs[i].name == (if Conditional(gs[i]) then WithConditions else WithoutConditions)
    {
      RegionAt(gs, k, j, i);
    }
  }

  /** `parseBPMN(text)` of the group-by-first-line compiler. */
  function Compile(text: string): string {
    Serialize(BuildGroups(Grouped(RawBlocks(Split(text, '\n'))), 1, 1).0)
  }

  /** Empty raw blocks leave nothing to group. */
  lemma {:induction false} EmptyCleaned(raws: seq<seq<string>>)
    requires forall i :: 0 <= i < |raws| ==> raws[i] == []
    ensures Cleaned(raws) == []
  {
    if raws != [] {
      EmptyCleaned(raws[..|raws| - 1]);
    }
  }

  /** Blocks that flatten to nothing are all empty. */
  lemma {:induction false} FlattenEmpty(blocks: seq<seq<string>>)
    requires Flatten(blocks) == []
    ensures forall i :: 0 <= i < |blocks| ==> blocks[i] == []
  {
    if blocks != [] {
      FlattenEmpty(blocks[..|blocks| - 1]);
    }
  }

  lemma {:induction false} AllBlankNonBlank(lines: seq<string>)
    requires forall i :: 0 <= i < |lines| ==> IsBlank(lines[i])
    ensures NonBlank(lines) == []
  {
    if lines != [] {
      AllBlankNonBlank(lines[..|lines| - 1]);
    }
  }

  /** A sketch whose lines are all blank compiles to the bare header. */
  lemma BlankSketch(text: string)
    requires forall i :: 0 <= i < |Split(text, '\n')| ==> IsBlank(Split(text, '\n')[i])
    ensures Compile(text) == Header
  {
    var lines := Split(text, '\n');
    var raws := RawBlocks(lines);
    RawBlocksKeepLines(lines);
    AllBlankNonBlank(lines);
    FlattenEmpty(raws);
    EmptyCleaned(raws);
    NoBlocksNoGroups(raws);
  }

  /*
   * The `groups.forEach` loop and the loop over a group's blocks inside it.
   */

  /**
   * The lines of a group's region, in the order the loop body pushes them:
   * the opening lines `head`, the outcome node lines, the end marker, the
   * connection lines and `end`.
   */
  lemma GroupLines(g: Group, k: nat, j: nat, head: seq<string>, nodeLines: seq<string>, connectionLines: seq<string>)
    requires var conditional := Conditional(g);
      var name := if conditional then WithConditions else WithoutConditions;
      var branch := if conditional then Some(j) else None;
      var b := BuildBlocks(g.blocks, conditional, k, branch, k + 1);
      && head == ["subgraph " + name]
           + [NodeLine(Node(k, g.decisionText, if conditional then Diamond else Rectangle))]
           + (if conditional then [BranchLine(j)] else [])
      && nodeLines == NodeLines(b.outcomes)
      && connectionLines == EdgeLines(b.edges, EndMarkerId(name))
    ensures var name := if Conditional(g) then WithConditions else WithoutConditions;
      head + nodeLines + [EndMarkerLine(name)] + connectionLines + ["end"] == ClusterLines(BuildGroup(g, k, j).0)
  {
  }

  /** The body of `groups.forEach` for one group: its region's text and both counters after it. */
  method EmitGroup(group: Group, nodeCounter: nat, branchCounter: nat) returns (chunk: string, nextNode: nat, nextBranch: nat)
    ensures var built := BuildGroup(group, nodeCounter, branchCounter);
      chunk == Chunk(built.0) && nextNode == built.1 && nextBranch == built.2
  {
    var isConditional := EndsWith(group.decisionText, '?');
    var subgraphName := if isConditional then WithConditions else WithoutConditions;
    var endMarkerId := EndMarkerId(subgraphName);
    var linesOut := ["subgraph " + subgraphName];
    var decisionNodeId := nodeCounter;
    nextNode := nodeCounter + 1;
    var decisionNodeLine := NodeLine(Node(decisionNodeId, group.decisionText, if isConditional then Diamond else Rectangle));
    linesOut := linesOut + [decisionNodeLine];
    var branchStartId: Option<nat> := None;
    nextBranch := branchCounter;
    if isConditional {
      branchStartId := Some(branchCounter);
      nextBranch := branchCounter + 1;
      linesOut := linesOut + [BranchLine(branchCounter)];
    } else {
      assert linesOut + [] == linesOut;
    }
    ghost var head := linesOut;
    var nodeLines, connectionLines;
    nodeLines, connectionLines, nextNode := EmitBlocks(group.blocks, isConditional, decisionNodeId, branchStartId, nextNode, endMarkerId);
    linesOut := linesOut + nodeLines;
    linesOut := linesOut + [EndMarkerLine(subgraphName)];
    linesOut := linesOut + connectionLines;
    linesOut := linesOut + ["end"];
    GroupLines(group, nodeCounter, branchCounter, head, nodeLines, connectionLines);
    chunk := Join(linesOut, "\n") + "\n";
  }

  /** One more group extends the document by its region. */
  lemma BuildGroupsSnoc(gs: seq<Group>, i: nat)
    requires i < |gs|
    ensures var prev := BuildGroups(gs[..i], 1, 1);
      var built := BuildGroup(gs[i], prev.1, prev.2);
      BuildGroups(gs[..i + 1], 1, 1) == (prev.0 + [built.0], built.1, built.2)
  {
    assert gs[..i + 1][..i] == gs[..i];
  }

  /** `parseBPMN(text)`: group the blocks, then append one region per group. */
  method ParseBPMN(text: string) returns (mermaidCode: string)
    ensures mermaidCode == Compile(text)
    ensures |mermaidCode| >= |Header| && mermaidCode[..|Header|] == Header
  {
    var rawBlocks := RawBlocks(Split(text, '\n'));
    var groups := GroupBlocks(rawBlocks);
    mermaidCode := Header;
    var nodeCounter := 1;
    var branchCounter := 1;
    for i := 0 to |groups|
      invariant var built := BuildGroups(groups[..i], 1, 1);
        mermaidCode == Serialize(built.0) && nodeCounter == built.1 && branchCounter == built.2
    {
      BuildGroupsSnoc(groups, i);
      ghost var prev := BuildGroups(groups[..i], 1, 1);
      var chunk;
      chunk, nodeCounter, branchCounter := EmitGroup(groups[i], nodeCounter, branchCounter);
      SerializeSnoc(prev.0, BuildGroup(groups[i], prev.1, prev.2).0);
      mermaidCode := mermaidCode + chunk;
    }
    assert groups[..|groups|] == groups;
  }
}
