/**
 * The pool-based compiler of `src/utils/parseBPMN.js`: a line scanner that
 * splits the sketch into named pools of blank-line-separated blocks, then one
 * Mermaid region per pool that has blocks, with one node counter threaded
 * through the whole document.
 */
module PoolParser {
  import opened Wrappers
  import opened Text
  import opened Mermaid
  import opened Branches

  /** A pool: the header text without its colon, and its blocks of trimmed lines. */
  datatype Pool = Pool(name: string, blocks: seq<seq<string>>)

  /** The scanner's variables between two lines: committed pools, the open pool, the pending block. */
  datatype ScanState = ScanState(pools: seq<Pool>, current: Option<Pool>, block: seq<string>)

  /** A trimmed line that opens a pool. */
  predicate IsHeader(line: string) {
    EndsWith(line, ':')
  }

  /** A line as it can stand in a block: trimmed, non-empty and not a header. */
  predicate IsContent(line: string) {
    line != [] && Trimmed(line) && !IsHeader(line)
  }

  predicate WellFormed(p: Pool) {
    forall i :: 0 <= i < |p.blocks| ==>
      |p.blocks[i]| > 0 && forall j :: 0 <= j < |p.blocks[i]| ==> IsContent(p.blocks[i][j])
  }

  predicate AllWellFormed(pools: seq<Pool>) {
    forall i :: 0 <= i < |pools| ==> WellFormed(pools[i])
  }

  /** `pushBlock`: commit the pending block only when it is non-empty and a pool is open. */
  function PushBlock(current: Option<Pool>, block: seq<string>): (Option<Pool>, seq<string>) {
    if |block| > 0 && current.Some? then
      (Some(current.value.(blocks := current.value.blocks + [block])), [])
    else
      (current, block)
  }

  /** The open pool, if any, as a list to append to the committed pools. */
  function Closed(current: Option<Pool>): seq<Pool> {
    if current.Some? then [current.value] else []
  }

  /** One iteration of the scanning loop, on the trimmed line. */
  function Step(st: ScanState, line: string): ScanState {
    if line == [] then
      var pushed := PushBlock(st.current, st.block);
      ScanState(st.pools, pushed.0, pushed.1)
    else if IsHeader(line) then
      var pushed := PushBlock(st.current, st.block);
      ScanState(st.pools + Closed(pushed.0), Some(Pool(line[..|line| - 1], [])), pushed.1)
    else
      st.(block := st.block + [line])
  }

  /** The scanner's state after the given lines. */
  function Scan(lines: seq<string>): ScanState {
    if lines == [] then ScanState([], None, [])
    else Step(Scan(lines[..|lines| - 1]), Trim(lines[|lines| - 1]))
  }

  /** After the last line: push the pending block and the open pool. */
  function Finish(st: ScanState): seq<Pool> {
    st.pools + Closed(PushBlock(st.current, st.block).0)
  }

  /** The names the header lines declare, in input order. */
  function HeaderNames(lines: seq<string>): seq<string> {
    if lines == [] then []
    else
      var line := Trim(lines[|lines| - 1]);
      HeaderNames(lines[..|lines| - 1]) + (if IsHeader(line) then [line[..|line| - 1]] else [])
  }

  function PoolNames(pools: seq<Pool>): (r: seq<string>)
    ensures |r| == |pools| && forall i :: 0 <= i < |pools| ==> r[i] == pools[i].name
  {
    if pools == [] then [] else PoolNames(pools[..|pools| - 1]) + [pools[|pools| - 1].name]
  }

  /** The trimmed non-blank lines that are not headers, in input order. */
  function ContentLines(lines: seq<string>): seq<string> {
    if lines == [] then []
    else
      var line := Trim(lines[|lines| - 1]);
      ContentLines(lines[..|lines| - 1]) + (if line != [] && !IsHeader(line) then [line] else [])
  }

  /** The committed pools followed by the open one. */
  function Opened(st: ScanState): seq<Pool> {
    st.pools + Closed(st.current)
  }

  predicate AllContent(block: seq<string>) {
    forall j :: 0 <= j < |block| ==> IsContent(block[j])
  }

  /** `pushBlock` keeps the open pool's name, and keeps it well formed. */
  lemma PushBlockKeeps(current: Option<Pool>, block: seq<string>)
    ensures var pushed := PushBlock(current, block);
      && PoolNames(Closed(pushed.0)) == PoolNames(Closed(current))
      && (AllWellFormed(Closed(current)) && AllContent(block) ==> AllWellFormed(Closed(pushed.0)) && AllContent(pushed.1))
  {
    var pushed := PushBlock(current, block);
    if |block| > 0 && current.Some? {
      var p := pushed.0.value;
      assert Closed(pushed.0) == [p];
      assert PoolNames([p]) == [p.name];
      assert PoolNames([current.value]) == [current.value.name];
      if AllWellFormed(Closed(current)) && AllContent(block) {
        assert WellFormed(current.value);
        assert p.blocks == current.value.blocks + [block];
        assert WellFormed(p);
      }
    }
  }

  lemma PoolNamesAppend(a: seq<Pool>, b: seq<Pool>)
    ensures PoolNames(a + b) == PoolNames(a) + PoolNames(b)
  {
  }

  /** One scanned line adds the header's name, if it is one, after the names so far. */
  lemma StepNames(st: ScanState, line: string)
    ensures PoolNames(Opened(Step(st, line))) == PoolNames(Opened(st)) + (if IsHeader(line) then [line[..|line| - 1]] else [])
  {
    var pushed := PushBlock(st.current, st.block);
    var next := Step(st, line);
    if line == [] {
      assert Opened(next) == st.pools + Closed(pushed.0);
      PushBlockKeeps(st.current, st.block);
      PoolNamesAppend(st.pools, Closed(pushed.0));
      PoolNamesAppend(st.pools, Closed(st.current));
    } else if IsHeader(line) {
      var np := Pool(line[..|line| - 1], []);
      assert Opened(next) == (st.pools + Closed(pushed.0)) + [np];
      PushBlockKeeps(st.current, st.block);
      PoolNamesAppend(st.pools, Closed(pushed.0));
      PoolNamesAppend(st.pools, Closed(st.current));
      PoolNamesAppend(st.pools + Closed(pushed.0), [np]);
    } else {
      assert Opened(next) == Opened(st);
    }
  }

  /** One scanned line keeps every pool well formed and the pending block made of content lines. */
  lemma StepWellFormed(st: ScanState, line: string)
    requires AllWellFormed(Opened(st)) && AllContent(st.block) && Trimmed(line)
    ensures AllWellFormed(Opened(Step(st, line))) && AllContent(Step(st, line).block)
  {
    var pushed := PushBlock(st.current, st.block);
    assert AllWellFormed(Closed(st.current)) by {
      if st.current.Some? {
        assert st.current.value == Opened(st)[|st.pools|];
      }
    }
    PushBlockKeeps(st.current, st.block);
    assert AllWellFormed(st.pools + Closed(pushed.0)) by {
      assert forall i :: 0 <= i < |st.pools| ==> st.pools[i] == Opened(st)[i];
    }
    if line != [] && IsHeader(line) {
      var np := Pool(line[..|line| - 1], []);
      assert Opened(Step(st, line)) == (st.pools + Closed(pushed.0)) + [np];
    }
  }

  /** What the scanner keeps while it runs: the pools so far follow the headers, and every block is well formed. */
  lemma {:induction false} ScanFacts(lines: seq<string>)
    ensures var st := Scan(lines);
      && PoolNames(Opened(st)) == HeaderNames(lines)
      && AllWellFormed(Opened(st))
      && AllContent(st.block)
  {
    if lines != [] {
      var prefix := lines[..|lines| - 1];
      ScanFacts(prefix);
      StepNames(Scan(prefix), Trim(lines[|lines| - 1]));
      StepWellFormed(Scan(prefix), Trim(lines[|lines| - 1]));
    }
  }

  /** Finishing commits the open pool (its pending block too, when it has one). */
  lemma FinishKeeps(st: ScanState)
    requires AllWellFormed(Opened(st)) && AllContent(st.block)
    ensures PoolNames(Finish(st)) == PoolNames(Opened(st))
    ensures AllWellFormed(Finish(st))
  {
    var pushed := PushBlock(st.current, st.block);
    PushBlockKeeps(st.current, st.block);
    PoolNamesAppend(st.pools, Closed(pushed.0));
    PoolNamesAppend(st.pools, Closed(st.current));
    assert AllWellFormed(Closed(st.current)) by {
      if st.current.Some? {
        assert st.current.value == Opened(st)[|st.pools|];
      }
    }
    assert forall i :: 0 <= i < |st.pools| ==> st.pools[i] == Opened(st)[i];
  }

  /**
   * The pools of the document: one per header line, in header order, each
   * named by its header without the colon, with non-empty blocks of trimmed
   * content lines.
   */
  function SplitPools(lines: seq<string>): (r: seq<Pool>)
    ensures PoolNames(r) == HeaderNames(lines)
    ensures AllWellFormed(r)
  {
    ScanFacts(lines);
    FinishKeeps(Scan(lines));
    Finish(Scan(lines))
  }

  /** The loop over the lines: pools, each with its blocks, exactly as the specification scanner builds them. */
  method ScanPools(lines: seq<string>) returns (pools: seq<Pool>)
    ensures pools == SplitPools(lines)
  {
    pools := [];
    var currentPool: Option<Pool> := None;
    var currentBlock: seq<string> := [];
    for i := 0 to |lines|
      invariant ScanState(pools, currentPool, currentBlock) == Scan(lines[..i])
    {
      assert lines[..i + 1][..i] == lines[..i];
      var line := Trim(lines[i]);
      if line == [] {
        var pushed := PushBlock(currentPool, currentBlock);
        currentPool, currentBlock := pushed.0, pushed.1;
        continue;
      }
      if IsHeader(line) {
        var pushed := PushBlock(currentPool, currentBlock);
        currentPool, currentBlock := pushed.0, pushed.1;
        if currentPool.Some? {
          pools := pools + [currentPool.value];
        }
        currentPool := Some(Pool(line[..|line| - 1], []));
      } else {
        currentBlock := currentBlock + [line];
      }
    }
    assert lines[..|lines|] == lines;
    var pushed := PushBlock(currentPool, currentBlock);
    currentPool, currentBlock := pushed.0, pushed.1;
    if currentPool.Some? {
      pools := pools + [currentPool.value];
    }
  }

  /** The scanner's state after the already trimmed `lines`, starting from `st`. */
  function ScanFrom(st: ScanState, lines: seq<string>): ScanState {
    if lines == [] then st
    else Step(ScanFrom(st, lines[..|lines| - 1]), lines[|lines| - 1])
  }

  /** Scanning more raw lines goes on from where the scanner stood, on their trimmed forms. */
  lemma {:induction false} ScanAppend(a: seq<string>, b: seq<string>)
    ensures Scan(a + b) == ScanFrom(Scan(a), TrimAll(b))
  {
    if b == [] {
      assert a + b == a;
    } else {
      var b' := b[..|b| - 1];
      ScanAppend(a, b');
      assert (a + b)[..|a + b| - 1] == a + b';
      var t := TrimAll(b);
      assert t[..|t| - 1] == TrimAll(b');
    }
  }

  lemma {:induction false} ScanFromAppend(st: ScanState, a: seq<string>, b: seq<string>)
    ensures ScanFrom(st, a + b) == ScanFrom(ScanFrom(st, a), b)
  {
    if b == [] {
      assert a + b == a;
    } else {
      var b' := b[..|b| - 1];
      ScanFromAppend(st, a, b');
      assert (a + b)[..|a + b| - 1] == a + b';
    }
  }

  /** The scanner looks at lines only through `trim`. */
  function TrimAll(lines: seq<string>): (r: seq<string>)
    ensures |r| == |lines| && forall i :: 0 <= i < |lines| ==> r[i] == Trim(lines[i])
  {
    if lines == [] then [] else TrimAll(lines[..|lines| - 1]) + [Trim(lines[|lines| - 1])]
  }

  lemma {:induction false} ScanOfTrimmed(lines: seq<string>)
    ensures Scan(TrimAll(lines)) == Scan(lines)
  {
    if lines != [] {
      var prefix := lines[..|lines| - 1];
      ScanOfTrimmed(prefix);
      var t := TrimAll(lines);
      assert t[..|t| - 1] == TrimAll(prefix);
      TrimIdempotent(lines[|lines| - 1]);
    }
  }

  /** Indentation and trailing blanks do not matter: lines that trim alike scan into the same pools. */
  lemma SplitPoolsIgnoresIndentation(lines: seq<string>, other: seq<string>)
    requires |lines| == |other| && forall i :: 0 <= i < |lines| ==> Trim(lines[i]) == Trim(other[i])
    ensures SplitPools(lines) == SplitPools(other)
  {
    assert TrimAll(lines) == TrimAll(other);
    ScanOfTrimmed(lines);
    ScanOfTrimmed(other);
  }

  /** A name whose header line `name:` is its own trim. */
  predicate HeaderReadable(name: string) {
    Trimmed(name + ":")
  }

  /** The blocks of a pool written out: each block's lines, then a blank line. */
  function BlocksText(blocks: seq<seq<string>>): seq<string> {
    if blocks == [] then []
    else BlocksText(blocks[..|blocks| - 1]) + (blocks[|blocks| - 1] + [""])
  }

  /** A pool written out: its header line, then its blocks. */
  function PoolText(p: Pool): seq<string> {
    [p.name + ":"] + BlocksText(p.blocks)
  }

  function PoolsText(pools: seq<Pool>): seq<string> {
    if pools == [] then [] else PoolsText(pools[..|pools| - 1]) + PoolText(pools[|pools| - 1])
  }

  lemma {:induction false} ContentAccumulates(st: ScanState, lines: seq<string>)
    requires AllContent(lines)
    ensures ScanFrom(st, lines) == st.(block := st.block + lines)
  {
    if lines != [] {
      var prefix := lines[..|lines| - 1];
      ContentAccumulates(st, prefix);
      assert st.block + prefix + [lines[|lines| - 1]] == st.block + lines;
    }
  }

  /** One written-out block: its lines pile up, then the blank line commits them to the open pool. */
  lemma BlockTextScan(pools: seq<Pool>, p: Pool, block: seq<string>)
    requires block != [] && AllContent(block)
    ensures ScanFrom(ScanState(pools, Some(p), []), block + [""])
         == ScanState(pools, Some(p.(blocks := p.blocks + [block])), [])
  {
    var st := ScanState(pools, Some(p), []);
    ScanFromAppend(st, block, [""]);
    ContentAccumulates(st, block);
    assert [] + block == block;
    StepBlankLine(st.(block := block));
  }

  lemma StepBlankLine(st: ScanState)
    ensures ScanFrom(st, [""]) == ScanState(st.pools, PushBlock(st.current, st.block).0, PushBlock(st.current, st.block).1)
  {
    assert [""][..0] == [];
  }

  lemma WellFormedDropLast(name: string, blocks: seq<seq<string>>)
    requires WellFormed(Pool(name, blocks)) && blocks != []
    ensures WellFormed(Pool(name, blocks[..|blocks| - 1]))
    ensures AllContent(blocks[|blocks| - 1]) && blocks[|blocks| - 1] != []
  {
    assert forall i :: 0 <= i < |blocks| - 1 ==> blocks[..|blocks| - 1][i] == blocks[i];
  }

  lemma {:induction false} BlocksTextScan(pools: seq<Pool>, name: string, blocks: seq<seq<string>>)
    requires WellFormed(Pool(name, blocks))
    ensures ScanFrom(ScanState(pools, Some(Pool(name, [])), []), BlocksText(blocks))
         == ScanState(pools, Some(Pool(name, blocks)), [])
  {
    if blocks != [] {
      var prefix := blocks[..|blocks| - 1];
      var b := blocks[|blocks| - 1];
      WellFormedDropLast(name, blocks);
      BlocksTextScan(pools, name, prefix);
      var st := ScanState(pools, Some(Pool(name, [])), []);
      var t := BlocksText(prefix);
      assert BlocksText(blocks) == t + (b + [""]);
      ScanFromAppend(st, t, b + [""]);
      assert ScanFrom(st, BlocksText(blocks)) == ScanFrom(ScanState(pools, Some(Pool(name, prefix)), []), b + [""]);
      BlockTextScan(pools, Pool(name, prefix), b);
      assert prefix + [b] == blocks;
      assert Pool(name, prefix).(blocks := prefix + [b]) == Pool(name, blocks);
    }
  }

  /** Scanning a written-out pool commits the pool that was open and leaves the written one open. */
  lemma PoolTextScan(pools: seq<Pool>, current: Option<Pool>, p: Pool)
    requires WellFormed(p) && HeaderReadable(p.name)
    ensures ScanFrom(ScanState(pools, current, []), PoolText(p)) == ScanState(pools + Closed(current), Some(p), [])
  {
    var st := ScanState(pools, current, []);
    var h := p.name + ":";
    assert h[..|h| - 1] == p.name;
    assert ScanFrom(st, [h]) == Step(st, h);
    var open := ScanState(pools + Closed(current), Some(Pool(p.name, [])), []);
    assert Step(st, h) == open;
    ScanFromAppend(st, [h], BlocksText(p.blocks));
    BlocksTextScan(pools + Closed(current), p.name, p.blocks);
  }

  lemma {:induction false} PoolsTextScan(pools: seq<Pool>)
    requires AllWellFormed(pools) && forall i :: 0 <= i < |pools| ==> HeaderReadable(pools[i].name)
    ensures var st := ScanFrom(ScanState([], None, []), PoolsText(pools));
      && (pools != [] ==> st == ScanState(pools[..|pools| - 1], Some(pools[|pools| - 1]), []))
      && (pools == [] ==> st == ScanState([], None, []))
  {
    if pools != [] {
      var prefix := pools[..|pools| - 1];
      var p := pools[|pools| - 1];
      assert forall i :: 0 <= i < |prefix| ==> prefix[i] == pools[i];
      PoolsTextScan(prefix);
      var init := ScanState([], None, []);
      assert PoolsText(pools) == PoolsText(prefix) + PoolText(p);
      ScanFromAppend(init, PoolsText(prefix), PoolText(p));
      var cur := if prefix == [] then None else Some(prefix[|prefix| - 1]);
      var before := if prefix == [] then [] else prefix[..|prefix| - 1];
      assert ScanFrom(init, PoolsText(prefix)) == ScanState(before, cur, []);
      PoolTextScan(before, cur, p);
      if prefix != [] {
        assert Closed(cur) == [prefix[|prefix| - 1]];
        SplitLast(prefix);
      }
    }
  }

  lemma SplitLast(pools: seq<Pool>)
    requires pools != []
    ensures pools[..|pools| - 1] + [pools[|pools| - 1]] == pools
  {
  }

  predicate AllTrimmed(lines: seq<string>) {
    forall i :: 0 <= i < |lines| ==> Trimmed(lines[i])
  }

  /** Lines that are already trimmed scan as they are. */
  lemma {:induction false} TrimAllFixed(lines: seq<string>)
    requires AllTrimmed(lines)
    ensures TrimAll(lines) == lines
  {
    if lines != [] {
      TrimAllFixed(lines[..|lines| - 1]);
      TrimFixed(lines[|lines| - 1]);
    }
  }

  lemma {:induction false} BlocksTextTrimmed(p: Pool)
    requires WellFormed(p)
    ensures AllTrimmed(BlocksText(p.blocks))
    decreases |p.blocks|
  {
    var blocks := p.blocks;
    if blocks != [] {
      var prefix := blocks[..|blocks| - 1];
      WellFormedDropLast(p.name, blocks);
      BlocksTextTrimmed(Pool(p.name, prefix));
      var b := blocks[|blocks| - 1];
      var t := BlocksText(prefix);
      assert BlocksText(blocks) == t + (b + [""]);
      forall i | 0 <= i < |t| + |b| + 1 ensures Trimmed((t + (b + [""]))[i]) {
        if i < |t| {
          assert (t + (b + [""]))[i] == t[i];
        } else if i < |t| + |b| {
          assert (t + (b + [""]))[i] == b[i - |t|];
        }
      }
    }
  }

  lemma {:induction false} PoolsTextTrimmed(pools: seq<Pool>)
    requires AllWellFormed(pools) && forall i :: 0 <= i < |pools| ==> HeaderReadable(pools[i].name)
    ensures AllTrimmed(PoolsText(pools))
  {
    if pools != [] {
      var prefix := pools[..|pools| - 1];
      var p := pools[|pools| - 1];
      assert forall i :: 0 <= i < |prefix| ==> prefix[i] == pools[i];
      PoolsTextTrimmed(prefix);
      BlocksTextTrimmed(p);
      var t := PoolsText(prefix);
      var u := BlocksText(p.blocks);
      assert PoolsText(pools) == t + ([p.name + ":"] + u);
      forall i | 0 <= i < |t| + 1 + |u| ensures Trimmed((t + ([p.name + ":"] + u))[i]) {
        if i < |t| {
          assert (t + ([p.name + ":"] + u))[i] == t[i];
        } else if i > |t| {
          assert (t + ([p.name + ":"] + u))[i] == u[i - |t| - 1];
        }
      }
    }
  }

  /**
   * Round trip: writing pools out as header lines, block lines and blank lines
   * and scanning the result gives back exactly those pools.
   */
  lemma SplitPoolsOfText(pools: seq<Pool>)
    requires AllWellFormed(pools) && forall i :: 0 <= i < |pools| ==> HeaderReadable(pools[i].name)
    ensures SplitPools(PoolsText(pools)) == pools
  {
    var text := PoolsText(pools);
    PoolsTextTrimmed(pools);
    TrimAllFixed(text);
    ScanAppend([], text);
    assert [] + text == text;
    PoolsTextScan(pools);
    if pools != [] {
      SplitLast(pools);
    }
  }

  /** Before the first header nothing is committed: the content lines pile up in the pending block. */
  lemma {:induction false} ScanBeforeHeader(lines: seq<string>)
    requires forall i :: 0 <= i < |lines| ==> !IsHeader(Trim(lines[i]))
    ensures Scan(lines) == ScanState([], None, ContentLines(lines))
  {
    if lines != [] {
      ScanBeforeHeader(lines[..|lines| - 1]);
    }
  }

  /** The first pool is named `name` and its first block starts with `lead`, or will once it is committed. */
  ghost predicate FirstBlockLeads(st: ScanState, name: string, lead: seq<string>) {
    if st.pools == [] then
      && st.current.Some? && st.current.value.name == name
      && (st.current.value.blocks == [] ==> lead <= st.block)
      && (st.current.value.blocks != [] ==> lead <= st.current.value.blocks[0])
    else
      st.pools[0].name == name && st.pools[0].blocks != [] && lead <= st.pools[0].blocks[0]
  }

  /** One scanned line keeps the first pool's name and the lead of its first block. */
  lemma StepKeepsLead(st: ScanState, line: string, name: string, lead: seq<string>)
    requires lead != [] && FirstBlockLeads(st, name, lead)
    ensures FirstBlockLeads(Step(st, line), name, lead)
  {
    var pushed := PushBlock(st.current, st.block);
    var next := Step(st, line);
    if st.pools == [] {
      var p := st.current.value;
      if p.blocks == [] {
        assert |st.block| > 0;
        assert pushed.0.Some? && pushed.0.value.name == name && pushed.0.value.blocks == [st.block];
        if line != [] && IsHeader(line) {
          assert next.pools == [pushed.0.value];
        }
      } else {
        assert pushed.0.Some? && pushed.0.value.name == name && pushed.0.value.blocks[0] == p.blocks[0];
        if line != [] && IsHeader(line) {
          assert next.pools == [pushed.0.value];
        }
      }
    } else {
      assert next.pools[0] == st.pools[0];
    }
  }

  lemma {:induction false} FirstBlockLeadsKept(prefix: seq<string>, rest: seq<string>, name: string, lead: seq<string>)
    requires lead != [] && FirstBlockLeads(Scan(prefix), name, lead)
    ensures FirstBlockLeads(Scan(prefix + rest), name, lead)
  {
    if rest == [] {
      assert prefix + rest == prefix;
    } else {
      var r' := rest[..|rest| - 1];
      var all := prefix + rest;
      FirstBlockLeadsKept(prefix, r', name, lead);
      assert all[..|all| - 1] == prefix + r';
      assert all[|all| - 1] == rest[|rest| - 1];
      StepKeepsLead(Scan(prefix + r'), Trim(rest[|rest| - 1]), name, lead);
      assert Scan(all) == Step(Scan(prefix + r'), Trim(rest[|rest| - 1]));
    }
  }

  /** Finishing keeps the first pool's name and the lead of its first block. */
  lemma FinishKeepsLead(st: ScanState, name: string, lead: seq<string>)
    requires lead != [] && FirstBlockLeads(st, name, lead)
    ensures var pools := Finish(st);
      |pools| >= 1 && pools[0].name == name && |pools[0].blocks| >= 1 && lead <= pools[0].blocks[0]
  {
    if st.pools == [] {
      var p := st.current.value;
      var pushed := PushBlock(st.current, st.block);
      assert Finish(st) == [pushed.0.value];
    } else {
      assert Finish(st)[0] == st.pools[0];
    }
  }

  /**
   * Lines before the first header are not lost: they stay in the pending block
   * and become the leading lines of the first pool's first block.
   */
  lemma LeadingLinesJoinFirstBlock(pre: seq<string>, header: string, rest: seq<string>)
    requires forall i :: 0 <= i < |pre| ==> !IsHeader(Trim(pre[i]))
    requires IsHeader(Trim(header))
    requires ContentLines(pre) != []
    ensures var pools := SplitPools(pre + [header] + rest);
      var h := Trim(header);
      && |pools| >= 1
      && pools[0].name == h[..|h| - 1]
      && |pools[0].blocks| >= 1
      && ContentLines(pre) <= pools[0].blocks[0]
  {
    var h := Trim(header);
    var lead := ContentLines(pre);
    ScanBeforeHeader(pre);
    assert (pre + [header])[..|pre|] == pre;
    assert Scan(pre + [header]) == ScanState([], Some(Pool(h[..|h| - 1], [])), lead);
    FirstBlockLeadsKept(pre + [header], rest, h[..|h| - 1], lead);
    FinishKeepsLead(Scan(pre + [header] + rest), h[..|h| - 1], lead);
  }

  /** Every line the pools hold, pool after pool and block after block. */
  function PoolContent(pools: seq<Pool>): seq<string> {
    if pools == [] then [] else PoolContent(pools[..|pools| - 1]) + Flatten(pools[|pools| - 1].blocks)
  }

  lemma {:induction false} PoolContentAppend(a: seq<Pool>, b: seq<Pool>)
    ensures PoolContent(a + b) == PoolContent(a) + PoolContent(b)
  {
    if b == [] {
      assert a + b == a;
    } else {
      var b' := b[..|b| - 1];
      var p := b[|b| - 1];
      PoolContentAppend(a, b');
      assert a + b == (a + b') + [p];
      assert ((a + b') + [p])[..|a + b'|] == a + b';
      assert PoolContent(a + b) == PoolContent(a + b') + Flatten(p.blocks);
      assert PoolContent(b) == PoolContent(b') + Flatten(p.blocks);
    }
  }

  /** `pushBlock` moves the pending lines into the open pool without losing or reordering any. */
  lemma PushBlockContent(current: Option<Pool>, block: seq<string>)
    ensures var pushed := PushBlock(current, block);
      && PoolContent(Closed(pushed.0)) + pushed.1 == PoolContent(Closed(current)) + block
      && pushed.0.Some? == current.Some?
  {
    if |block| > 0 && current.Some? {
      var p := current.value;
      FlattenSnoc(p.blocks, block);
      assert PoolContent([p]) == Flatten(p.blocks);
      assert PoolContent([p.(blocks := p.blocks + [block])]) == Flatten(p.blocks + [block]);
    }
  }

  /** The same, behind the committed pools. */
  lemma PushContent(pools: seq<Pool>, current: Option<Pool>, block: seq<string>)
    ensures var pushed := PushBlock(current, block);
      PoolContent(pools + Closed(pushed.0)) + pushed.1 == PoolContent(pools + Closed(current)) + block
  {
    var pushed := PushBlock(current, block);
    PushBlockContent(current, block);
    PoolContentAppend(pools, Closed(pushed.0));
    PoolContentAppend(pools, Closed(current));
  }

  /**
   * One scanned line keeps every line seen so far in the pools or the pending
   * block, in input order, and adds the line itself when it is content.
   */
  lemma StepContent(st: ScanState, line: string)
    ensures var next := Step(st, line);
      && PoolContent(Opened(next)) + next.block
         == PoolContent(Opened(st)) + st.block + (if line != [] && !IsHeader(line) then [line] else [])
      && (next.current.Some? <==> st.current.Some? || (line != [] && IsHeader(line)))
  {
    var pushed := PushBlock(st.current, st.block);
    var next := Step(st, line);
    PushContent(st.pools, st.current, st.block);
    if line == [] {
      assert Opened(next) == st.pools + Closed(pushed.0);
    } else if IsHeader(line) {
      var np := Pool(line[..|line| - 1], []);
      assert Opened(next) == (st.pools + Closed(pushed.0)) + [np];
      PoolContentAppend(st.pools + Closed(pushed.0), [np]);
      assert PoolContent([np]) == [];
    } else {
      assert Opened(next) == Opened(st);
    }
  }

  /** While scanning, the pools and the pending block hold exactly the content lines so far. */
  lemma {:induction false} ScanContent(lines: seq<string>)
    ensures var st := Scan(lines);
      && PoolContent(Opened(st)) + st.block == ContentLines(lines)
      && (st.current.Some? <==> HeaderNames(lines) != [])
  {
    if lines != [] {
      var prefix := lines[..|lines| - 1];
      ScanContent(prefix);
      StepContent(Scan(prefix), Trim(lines[|lines| - 1]));
    }
  }

  /** Finishing with a pool open commits the pending block into it. */
  lemma FinishContent(st: ScanState)
    requires st.current.Some?
    ensures PoolContent(Finish(st)) == PoolContent(Opened(st)) + st.block
  {
    PushContent(st.pools, st.current, st.block);
    assert PushBlock(st.current, st.block).1 == [];
  }

  /**
   * No content line is lost once the sketch has a header: the pools' blocks,
   * read one after another, are exactly the trimmed content lines of the
   * sketch in input order, those before the first header included. (Without
   * a header there are no pools at all, as `SplitPools` states.)
   */
  lemma NoContentLost(lines: seq<string>)
    requires HeaderNames(lines) != []
    ensures PoolContent(SplitPools(lines)) == ContentLines(lines)
  {
    ScanContent(lines);
    FinishContent(Scan(lines));
  }

  /** Committed pools stay committed, at the same places. */
  lemma {:induction false} PoolsPersist(st: ScanState, lines: seq<string>)
    ensures st.pools <= ScanFrom(st, lines).pools
    ensures st.pools <= Finish(ScanFrom(st, lines))
  {
    if lines != [] {
      PoolsPersist(st, lines[..|lines| - 1]);
    }
  }

  /**
   * A header right after content lines commits them as the last block of the
   * pool it closes: that pool keeps its place among the pools for good.
   */
  lemma HeaderClosesPool(pre: seq<string>, header: string, rest: seq<string>)
    requires IsHeader(Trim(header))
    requires Scan(pre).current.Some? && Scan(pre).block != []
    ensures var st := Scan(pre); var p := st.current.value;
      var pools := SplitPools(pre + [header] + rest);
      |pools| > |st.pools| && pools[|st.pools|] == p.(blocks := p.blocks + [st.block])
  {
    var st := Scan(pre);
    var p := st.current.value;
    var closed := p.(blocks := p.blocks + [st.block]);
    assert (pre + [header])[..|pre|] == pre;
    var mid := Scan(pre + [header]);
    assert mid.pools == st.pools + [closed];
    ScanAppend(pre + [header], rest);
    PoolsPersist(mid, TrimAll(rest));
  }

  /** A pool is conditional when the first line of its first block ends in `?`. */
  predicate Conditional(p: Pool)
    requires p.blocks != [] && p.blocks[0] != []
  {
    EndsWith(p.blocks[0][0], '?')
  }

  /** The region of a pool with blocks, and the node counter after it. */
  function BuildPool(p: Pool, k: nat): (Cluster, nat)
    requires WellFormed(p) && p.blocks != []
  {
    var text := p.blocks[0][0];
    var conditional := Conditional(p);
    var b := BuildBlocks(p.blocks, conditional, k, None, k + 1);
    (Cluster(p.name, Node(k, text, if conditional then Diamond else Rectangle), None, b.outcomes, b.edges), b.next)
  }

  /**
   * The region of a pool: titled by the pool name, one decision node `n<k>`
   * with the first block's first line, a diamond exactly when that line ends
   * in `?`, no branch-start node, then one id per block that gives an outcome
   * node and one edge per block that gives an edge.
   */
  lemma PoolCluster(p: Pool, k: nat)
    requires WellFormed(p) && p.blocks != []
    ensures var (c, next) := BuildPool(p, k);
      var conditional := Conditional(p);
      && c.name == p.name
      && c.decision.id == k && c.decision.text == p.blocks[0][0]
      && (c.decision.shape == Diamond <==> EndsWith(p.blocks[0][0], '?'))
      && c.branch == None
      && next == k + 1 + |NodeBlocks(p.blocks, conditional)|
      && Consecutive(OutcomeIds(c.outcomes), k + 1, next)
      && |c.edges| == |EdgeBlocks(p.blocks, conditional)|
  {
    var conditional := Conditional(p);
    BuildBlocksNodes(p.blocks, conditional, k, None, k + 1);
    BuildBlocksEdges(p.blocks, conditional, k, None, k + 1);
  }

  /** The regions of the document: pools without blocks give none and leave the counter alone. */
  function BuildAll(pools: seq<Pool>, k: nat): (seq<Cluster>, nat)
    requires AllWellFormed(pools)
  {
    if pools == [] then ([], k)
    else
      var prev := BuildAll(pools[..|pools| - 1], k);
      var p := pools[|pools| - 1];
      if p.blocks == [] then prev
      else
        var built := BuildPool(p, prev.1);
        (prev.0 + [built.0], built.1)
  }

  /** The compiler: `parseBPMN(text)`. */
  function Compile(text: string): string {
    Serialize(BuildAll(SplitPools(Split(text, '\n')), 1).0)
  }

  /** Node ids `k, k + 1, ...` run through the whole document in declaration order, none used twice. */
  lemma {:induction false} DocumentNodeIds(pools: seq<Pool>, k: nat)
    requires AllWellFormed(pools)
    ensures Consecutive(NodeIds(BuildAll(pools, k).0), k, BuildAll(pools, k).1)
  {
    if pools != [] {
      var prefix := pools[..|pools| - 1];
      var p := pools[|pools| - 1];
      DocumentNodeIds(prefix, k);
      var prev := BuildAll(prefix, k);
      if p.blocks != [] {
        PoolCluster(p, prev.1);
        var built := BuildPool(p, prev.1);
        var cs := prev.0 + [built.0];
        assert cs[..|cs| - 1] == prev.0;
        assert NodeIds(cs) == NodeIds(prev.0) + [prev.1] + OutcomeIds(built.0.outcomes);
        ConsecutiveAppend(NodeIds(prev.0), [prev.1], k, prev.1, prev.1 + 1);
        ConsecutiveAppend(NodeIds(prev.0) + [prev.1], OutcomeIds(built.0.outcomes), k, prev.1 + 1, built.1);
      }
    }
  }

  /** A pool without blocks contributes no region and no id, wherever it stands. */
  lemma {:induction false} EmptyPoolIgnored(before: seq<Pool>, p: Pool, after: seq<Pool>, k: nat)
    requires AllWellFormed(before + [p] + after) && p.blocks == []
    ensures AllWellFormed(before + after)
    ensures BuildAll(before + [p] + after, k) == BuildAll(before + after, k)
  {
    assert forall i :: 0 <= i < |before + after| ==>
      (before + after)[i] == (before + [p] + after)[if i < |before| then i else i + 1];
    if after == [] {
      assert (before + [p] + after)[..|before|] == before;
      assert before + after == before;
    } else {
      var a' := after[..|after| - 1];
      assert (before + [p] + after)[..|before + [p] + after| - 1] == before + [p] + a';
      assert (before + after)[..|before + after| - 1] == before + a';
      EmptyPoolIgnored(before, p, a', k);
    }
  }

  /** The regions of the document follow the pools that have blocks, in pool order. */
  function NamesWithBlocks(pools: seq<Pool>): seq<string> {
    if pools == [] then []
    else
      var p := pools[|pools| - 1];
      NamesWithBlocks(pools[..|pools| - 1]) + (if p.blocks != [] then [p.name] else [])
  }

  function ClusterNames(cs: seq<Cluster>): seq<string> {
    if cs == [] then [] else ClusterNames(cs[..|cs| - 1]) + [cs[|cs| - 1].name]
  }

  lemma {:induction false} RegionsFollowPools(pools: seq<Pool>, k: nat)
    requires AllWellFormed(pools)
    ensures ClusterNames(BuildAll(pools, k).0) == NamesWithBlocks(pools)
  {
    if pools != [] {
      var prefix := pools[..|pools| - 1];
      RegionsFollowPools(prefix, k);
      var prev := BuildAll(prefix, k);
      var p := pools[|pools| - 1];
      if p.blocks != [] {
        var cs := prev.0 + [BuildPool(p, prev.1).0];
        assert cs[..|cs| - 1] == prev.0;
      }
    }
  }

  /** No trimmed line ends in `:`. */
  predicate NoHeaderLine(lines: seq<string>) {
    forall i :: 0 <= i < |lines| ==> !IsHeader(Trim(lines[i]))
  }

  lemma {:induction false} NoHeaderNoNames(lines: seq<string>)
    requires NoHeaderLine(lines)
    ensures HeaderNames(lines) == []
  {
    if lines != [] {
      NoHeaderNoNames(lines[..|lines| - 1]);
    }
  }

  /** Without a header line there is no pool, so the output is the header line alone. */
  lemma NoHeaderBareOutput(text: string)
    requires NoHeaderLine(Split(text, '\n'))
    ensures SplitPools(Split(text, '\n')) == []
    ensures Compile(text) == "graph TD\n"
  {
    var lines := Split(text, '\n');
    NoHeaderNoNames(lines);
    assert |SplitPools(lines)| == |PoolNames(SplitPools(lines))| == 0;
  }

  /** The loop body for one pool: its region's text and the counter after it. */
  method EmitPool(pool: Pool, counter: nat) returns (chunk: string, next: nat)
    requires WellFormed(pool)
    ensures pool.blocks == [] ==> chunk == [] && next == counter
    ensures pool.blocks != [] ==> var built := BuildPool(pool, counter); chunk == Chunk(built.0) && next == built.1
  {
    var subgraphName := pool.name;
    var endMarkerId := EndMarkerId(subgraphName);
    var linesOut := ["subgraph " + subgraphName];
    if |pool.blocks| == 0 {
      return [], counter;
    }
    var decisionText := pool.blocks[0][0];
    var isConditional := EndsWith(decisionText, '?');
    var decisionNodeId := counter;
    next := counter + 1;
    var decisionLine := NodeLine(Node(decisionNodeId, decisionText, if isConditional then Diamond else Rectangle));
    linesOut := linesOut + [decisionLine];
    var nodeLines, connectionLines;
    nodeLines, connectionLines, next := EmitBlocks(pool.blocks, isConditional, decisionNodeId, None, next, endMarkerId);
    linesOut := linesOut + nodeLines;
    linesOut := linesOut + [EndMarkerLine(subgraphName)];
    linesOut := linesOut + connectionLines;
    linesOut := linesOut + ["end"];
    PoolLines(pool, counter);
    chunk := Join(linesOut, "\n") + "\n";
  }

  /** The lines of a pool's region, in the order the loop body pushes them. */
  lemma PoolLines(p: Pool, k: nat)
    requires WellFormed(p) && p.blocks != []
    ensures var text := p.blocks[0][0];
      var conditional := Conditional(p);
      var b := BuildBlocks(p.blocks, conditional, k, None, k + 1);
      ClusterLines(BuildPool(p, k).0)
        == ["subgraph " + p.name]
         + [NodeLine(Node(k, text, if conditional then Diamond else Rectangle))]
         + NodeLines(b.outcomes)
         + [EndMarkerLine(p.name)]
         + EdgeLines(b.edges, EndMarkerId(p.name))
         + ["end"]
  {
    var c := BuildPool(p, k).0;
    var head := ["subgraph " + p.name] + [NodeLine(c.decision)];
    assert BranchLines(c) == [];
    assert head + BranchLines(c) == head;
  }

  lemma WellFormedPrefix(pools: seq<Pool>, n: nat)
    requires AllWellFormed(pools) && n <= |pools|
    ensures AllWellFormed(pools[..n])
  {
    assert forall i :: 0 <= i < n ==> pools[..n][i] == pools[i];
  }

  /** One more pool extends the document by its region, unless it has no blocks. */
  lemma BuildAllSnoc(pools: seq<Pool>, i: nat)
    requires AllWellFormed(pools) && i < |pools|
    ensures AllWellFormed(pools[..i]) && AllWellFormed(pools[..i + 1])
    ensures var prev := BuildAll(pools[..i], 1);
      BuildAll(pools[..i + 1], 1)
        == if pools[i].blocks == [] then prev
           else (prev.0 + [BuildPool(pools[i], prev.1).0], BuildPool(pools[i], prev.1).1)
  {
    WellFormedPrefix(pools, i);
    WellFormedPrefix(pools, i + 1);
    assert pools[..i + 1][..i] == pools[..i];
  }

  /** `parseBPMN(text)`: scan the lines, then append one region per pool with blocks. */
  method ParseBPMN(text: string) returns (mermaidCode: string)
    ensures mermaidCode == Compile(text)
    ensures |mermaidCode| >= |Header| && mermaidCode[..|Header|] == Header
  {
    var lines := Split(text, '\n');
    var pools := ScanPools(lines);
    mermaidCode := Header;
    var nodeCounter := 1;
    for i := 0 to |pools|
      invariant AllWellFormed(pools[..i])
      invariant var built := BuildAll(pools[..i], 1);
        mermaidCode == Serialize(built.0) && nodeCounter == built.1
    {
      BuildAllSnoc(pools, i);
      ghost var prev := BuildAll(pools[..i], 1);
      var chunk;
      chunk, nodeCounter := EmitPool(pools[i], nodeCounter);
      if pools[i].blocks != [] {
        SerializeSnoc(prev.0, BuildPool(pools[i], prev.1).0);
      }
      mermaidCode := mermaidCode + chunk;
    }
    assert pools[..|pools|] == pools;
  }
}
