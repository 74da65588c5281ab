/** The pin-swap script (read_karma_cfg_swap_pin.py): locate the CFG block of a
    KARMA input file, find the last "4" and every "1" among the block's grid
    tokens, exchange a "4" with a chosen "1", and splice the new block into a copy
    of the file under the next free KARMA_nnnnn.IN name. */
module SwapPin {
  import opened Text
  import opened KarmaFormat
  import ReadCfg

  // ================================================================ extract_cfg_section

  /** cfg_start, cfg_end and cfg_lines as extract_cfg_section returns them. */
  datatype Section = Section(start: Option<nat>, end: Option<nat>, cfgLines: seq<string>)

  /** What the loop of extract_cfg_section yields from line i on, given the current
      cfg_start: a line holding 'CFG' moves cfg_start to it and adds its size token;
      after a header the first terminator sets cfg_end and stops the scan. */
  function ExtractFrom(lines: seq<string>, i: nat, start: Option<nat>): Section
    decreases |lines| - i
  {
    if i >= |lines| then Section(start, None, [])
    else if HasCfg(lines[i]) then
      var r := ExtractFrom(lines, i + 1, Some(i));
      r.(cfgLines := SizeToken(lines[i]) + r.cfgLines)
    else if start.Some? && IsTerminator(lines[i]) then Section(start, Some(i), [])
    else if start.Some? && !IsBlank(lines[i]) then
      var r := ExtractFrom(lines, i + 1, start);
      r.(cfgLines := [Strip(lines[i])] + r.cfgLines)
    else ExtractFrom(lines, i + 1, start)
  }

  method ExtractCfgSection(lines: seq<string>) returns (cfgStart: Option<nat>, cfgEnd: Option<nat>, cfgLines: seq<string>)
    ensures Section(cfgStart, cfgEnd, cfgLines) == ExtractFrom(lines, 0, None)
  {
    ghost var whole := ExtractFrom(lines, 0, None);
    cfgStart, cfgEnd, cfgLines := None, None, [];
    assert [] + whole.cfgLines == whole.cfgLines;
    var i := 0;
    while i < |lines|
      invariant 0 <= i <= |lines|
      invariant cfgEnd == None
      invariant Remaining(lines, i, cfgStart, cfgLines, whole)
    {
      var line := lines[i];
      ExtractStep(lines, i, cfgStart, cfgLines, whole);
      if HasCfg(line) {
        cfgStart := Some(i);
        var parts := Split(line);
        if |parts| > 1 {
          cfgLines := cfgLines + [parts[1]];
        } else {
          assert cfgLines + [] == cfgLines;
        }
        i := i + 1;
        continue;
      }
      if cfgStart.Some? && cfgEnd.None? {
        if IsTerminator(line) {
          cfgEnd := Some(i);
          break;
        }
        if !IsBlank(line) {
          cfgLines := cfgLines + [Strip(line)];
        } else {
          assert cfgLines + [] == cfgLines;
        }
      }
      i := i + 1;
    }
  }

  /** The loop invariant of extract_cfg_section: the lines from i on, scanned from the
      current cfg_start, yield the final bounds and the rest of the list after acc. */
  ghost predicate Remaining(lines: seq<string>, i: nat, start: Option<nat>, acc: seq<string>, whole: Section) {
    var r := ExtractFrom(lines, i, start);
    whole.start == r.start && whole.end == r.end && whole.cfgLines == acc + r.cfgLines
  }

  /** One line of the scan: a header moves cfg_start and adds its size token, a
      terminator after a header fixes the result, a block line adds what Kept says,
      and a line before any header changes nothing. */
  lemma ExtractStep(lines: seq<string>, i: nat, start: Option<nat>, acc: seq<string>, whole: Section)
    requires i < |lines| && Remaining(lines, i, start, acc, whole)
    ensures HasCfg(lines[i]) ==> Remaining(lines, i + 1, Some(i), acc + SizeToken(lines[i]), whole)
    ensures !HasCfg(lines[i]) && start.Some? && IsTerminator(lines[i]) ==>
              whole == Section(start, Some(i), acc)
    ensures !HasCfg(lines[i]) && start.Some? && !IsTerminator(lines[i]) ==>
              Remaining(lines, i + 1, start, acc + Kept(lines[i]), whole)
    ensures !HasCfg(lines[i]) && start.None? ==> Remaining(lines, i + 1, start, acc, whole)
  {
    if HasCfg(lines[i]) {
      ExtractAtHeader(lines, i, start);
      ConcatAssoc(acc, SizeToken(lines[i]), ExtractFrom(lines, i + 1, Some(i)).cfgLines);
    } else if start.Some? && IsTerminator(lines[i]) {
      assert acc + [] == acc;
    } else if start.Some? {
      ExtractInBlock(lines, i, start.value);
      ConcatAssoc(acc, Kept(lines[i]), ExtractFrom(lines, i + 1, start).cfgLines);
    } else {
      ExtractSkips(lines, i, i + 1);
    }
  }

  /** A line holding 'CFG' moves cfg_start to it and adds its size token. */
  lemma ExtractAtHeader(lines: seq<string>, i: nat, start: Option<nat>)
    requires i < |lines| && HasCfg(lines[i])
    ensures var q := ExtractFrom(lines, i + 1, Some(i));
      ExtractFrom(lines, i, start) == q.(cfgLines := SizeToken(lines[i]) + q.cfgLines)
  {
  }

  /** extract_cfg_section's list and read_cfg's list agree on every input. */
  lemma {:induction false} ExtractAgreesWithReadCfg(lines: seq<string>, i: nat, start: Option<nat>)
    requires i <= |lines|
    ensures ExtractFrom(lines, i, start).cfgLines == ReadCfg.Collect(lines[i..], start.Some?)
    decreases |lines| - i
  {
    if i < |lines| {
      assert lines[i..][0] == lines[i] && lines[i..][1..] == lines[i + 1..];
      if HasCfg(lines[i]) {
        ExtractAgreesWithReadCfg(lines, i + 1, Some(i));
      } else if start.Some? && IsTerminator(lines[i]) {
      } else {
        ExtractAgreesWithReadCfg(lines, i + 1, start);
      }
    }
  }

  /** The invariant of the scan: a recorded cfg_start is a line holding 'CFG' before
      line i, and no later line before i holds 'CFG'. */
  predicate StartBefore(lines: seq<string>, i: nat, start: Option<nat>)
    requires i <= |lines|
  {
    start.Some? ==>
      start.value < i && HasCfg(lines[start.value]) &&
      forall k :: start.value < k < i ==> !HasCfg(lines[k])
  }

  /** Where both are set, cfg_end lies after cfg_start, cfg_start is a line holding
      'CFG', cfg_end is a terminator, and no line after cfg_start up to cfg_end holds
      'CFG': cfg_start is the last header before cfg_end. */
  predicate Bounded(lines: seq<string>, r: Section) {
    (r.start.Some? ==> r.start.value < |lines| && HasCfg(lines[r.start.value])) &&
    (r.end.Some? ==>
      r.start.Some? && r.start.value < r.end.value < |lines| &&
      IsTerminator(lines[r.end.value]) &&
      forall k :: r.start.value < k <= r.end.value ==> !HasCfg(lines[k]))
  }

  lemma {:induction false} ExtractBounds(lines: seq<string>, i: nat, start: Option<nat>)
    requires i <= |lines|
    requires StartBefore(lines, i, start)
    ensures Bounded(lines, ExtractFrom(lines, i, start))
    decreases |lines| - i
  {
    if i < |lines| {
      var r := ExtractFrom(lines, i, start);
      if HasCfg(lines[i]) {
        var q := ExtractFrom(lines, i + 1, Some(i));
        assert r.start == q.start && r.end == q.end;
        assert Bounded(lines, q) by {
          ExtractBounds(lines, i + 1, Some(i));
        }
      } else if start.Some? && IsTerminator(lines[i]) {
        assert r == Section(start, Some(i), []);
      } else {
        var q := ExtractFrom(lines, i + 1, start);
        assert r.start == q.start && r.end == q.end;
        assert StartBefore(lines, i + 1, start);
        assert Bounded(lines, q) by {
          ExtractBounds(lines, i + 1, start);
        }
      }
    }
  }

  /** The bounds extract_cfg_section returns. */
  lemma ExtractSectionBounds(lines: seq<string>)
    ensures Bounded(lines, ExtractFrom(lines, 0, None))
  {
    ExtractBounds(lines, 0, None);
  }

  /** The loop moves past lines that hold no 'CFG' while no header has been seen. */
  lemma {:induction false} ExtractSkips(lines: seq<string>, i: nat, k: nat)
    requires i <= k <= |lines|
    requires forall m :: i <= m < k ==> !HasCfg(lines[m])
    ensures ExtractFrom(lines, i, None) == ExtractFrom(lines, k, None)
    decreases k - i
  {
    if i < k {
      ExtractSkips(lines, i + 1, k);
    }
  }

  /** Inside the block, lines i .. k-1 (no header, no terminator) add their stripped forms. */
  lemma {:induction false} ExtractBlock(lines: seq<string>, i: nat, k: nat, h: nat)
    requires i <= k <= |lines|
    requires forall m :: i <= m < k ==> !HasCfg(lines[m]) && !IsTerminator(lines[m])
    ensures var r := ExtractFrom(lines, k, Some(h));
      var q := ExtractFrom(lines, i, Some(h));
      q.start == r.start && q.end == r.end && q.cfgLines == StrippedLines(lines[i..k]) + r.cfgLines
    decreases k - i
  {
    var r := ExtractFrom(lines, k, Some(h));
    if i < k {
      var q' := ExtractFrom(lines, i + 1, Some(h));
      var s := StrippedLines(lines[i + 1..k]);
      var x := Kept(lines[i]);
      assert q'.start == r.start && q'.end == r.end && q'.cfgLines == s + r.cfgLines by {
        ExtractBlock(lines, i + 1, k, h);
      }
      assert StrippedLines(lines[i..k]) == x + s by {
        StrippedStep(lines, i, k);
      }
      assert ExtractFrom(lines, i, Some(h)) == q'.(cfgLines := x + q'.cfgLines) by {
        ExtractInBlock(lines, i, h);
      }
      ConcatAssoc(x, s, r.cfgLines);
    } else {
      assert lines[i..k] == [];
    }
  }

  /** StrippedLines of a slice, one line at a time. */
  lemma StrippedStep(lines: seq<string>, i: nat, k: nat)
    requires i < k <= |lines|
    ensures StrippedLines(lines[i..k]) == Kept(lines[i]) + StrippedLines(lines[i + 1..k])
  {
    assert lines[i..k][0] == lines[i] && lines[i..k][1..] == lines[i + 1..k];
  }

  /** One line inside the block: it adds what Kept says and the scan goes on. */
  lemma ExtractInBlock(lines: seq<string>, i: nat, h: nat)
    requires i < |lines| && !HasCfg(lines[i]) && !IsTerminator(lines[i])
    ensures var q := ExtractFrom(lines, i + 1, Some(h));
      ExtractFrom(lines, i, Some(h)) == q.(cfgLines := Kept(lines[i]) + q.cfgLines)
  {
    var q := ExtractFrom(lines, i + 1, Some(h));
    if IsBlank(lines[i]) {
      assert Kept(lines[i]) + q.cfgLines == q.cfgLines;
    }
  }

  /** With no line holding 'CFG' the result is (None, None, []). */
  lemma ExtractNoHeader(lines: seq<string>)
    requires forall m :: 0 <= m < |lines| ==> !HasCfg(lines[m])
    ensures ExtractFrom(lines, 0, None) == Section(None, None, [])
  {
    ExtractSkips(lines, 0, |lines|);
  }

  /** Line h is the file's only header and the block after it runs up to line e, which is
      a terminator holding no 'CFG', or the end of the file. */
  ghost predicate OneSection(lines: seq<string>, h: nat, e: nat) {
    h < e <= |lines| &&
    (forall m :: 0 <= m < h ==> !HasCfg(lines[m])) &&
    HasCfg(lines[h]) &&
    (forall m :: h < m < e ==> !HasCfg(lines[m]) && !IsTerminator(lines[m])) &&
    (e < |lines| ==> IsTerminator(lines[e]) && !HasCfg(lines[e]))
  }

  /** For such a file cfg_start = h, cfg_end = e (None at the end of the file), and
      cfg_lines is the size token and the block's stripped non-blank lines. */
  lemma ExtractSection(lines: seq<string>, h: nat, e: nat)
    requires OneSection(lines, h, e)
    ensures ExtractFrom(lines, 0, None)
            == Section(Some(h), if e < |lines| then Some(e) else None,
                       SizeToken(lines[h]) + StrippedLines(lines[h + 1..e]))
  {
    ExtractFromHeader(lines, h, e);
    ExtractSkips(lines, 0, h);
  }

  /** From the header on: the scan records h, adds the size token and the block's lines,
      and stops at e. */
  lemma ExtractFromHeader(lines: seq<string>, h: nat, e: nat)
    requires h < e <= |lines| && HasCfg(lines[h])
    requires forall m :: h < m < e ==> !HasCfg(lines[m]) && !IsTerminator(lines[m])
    requires e < |lines| ==> IsTerminator(lines[e]) && !HasCfg(lines[e])
    ensures ExtractFrom(lines, h, None)
            == Section(Some(h), if e < |lines| then Some(e) else None,
                       SizeToken(lines[h]) + StrippedLines(lines[h + 1..e]))
  {
    var end := if e < |lines| then Some(e) else None;
    var block := StrippedLines(lines[h + 1..e]);
    assert ExtractFrom(lines, e, Some(h)) == Section(Some(h), end, []) by {
      if e < |lines| {
        assert !HasCfg(lines[e]) && IsTerminator(lines[e]);
      }
    }
    assert ExtractFrom(lines, h + 1, Some(h)) == Section(Some(h), end, block) by {
      ExtractBlock(lines, h + 1, e, h);
      assert block + [] == block;
    }
    ExtractAtHeader(lines, h, None);
  }


  // ================================================================ find_positions

  /** A (row, column) index into the token grid of cfg_data. */
  datatype Pos = Pos(row: nat, col: nat)

  /** cfg_data as a token matrix: row 0 (the size line) is kept apart, so its slot is empty. */
  function Grid(cfg: seq<string>): (g: seq<seq<string>>)
    ensures RowsOf(cfg, g)
  {
    seq(|cfg|, k requires 0 <= k < |cfg| => if k == 0 then [] else Split(cfg[k]))
  }

  /** g holds the rows of cfg_data's grid: an empty slot for the size line, then the
      whitespace-split tokens of each later line. */
  predicate RowsOf(cfg: seq<string>, g: seq<seq<string>>) {
    |g| == |cfg| && (|cfg| > 0 ==> g[0] == []) &&
    forall k :: 1 <= k < |cfg| ==> g[k] == Split(cfg[k])
  }

  /** Proof device only, not a second definition of the grid: it hands out Grid(cfg)
      known only through RowsOf, so that the loop proofs of FindPositions do not see
      Grid's sequence comprehension. RowsOfGrid ties the result back to Grid. */
  lemma GridRows(cfg: seq<string>) returns (g: seq<seq<string>>)
    ensures RowsOf(cfg, g)
  {
    g := Grid(cfg);
  }

  /** RowsOf pins the grid down. */
  lemma RowsOfGrid(cfg: seq<string>, g: seq<seq<string>>)
    requires RowsOf(cfg, g)
    ensures g == Grid(cfg)
  {
  }

  /** p names a grid token: a row after the size line, a column within that row. */
  predicate InGrid(g: seq<seq<string>>, p: Pos) {
    1 <= p.row < |g| && p.col < |g[p.row]|
  }

  function At(g: seq<seq<string>>, p: Pos): string
    requires InGrid(g, p)
  {
    g[p.row][p.col]
  }

  /** Row-major order. */
  predicate Before(p: Pos, q: Pos) {
    p.row < q.row || (p.row == q.row && p.col < q.col)
  }

  /** Positions of tok among the first n tokens of row r, left to right. */
  function RowMatches(toks: seq<string>, r: nat, tok: string, n: nat): seq<Pos>
    requires n <= |toks|
  {
    if n == 0 then []
    else RowMatches(toks, r, tok, n - 1) + (if toks[n - 1] == tok then [Pos(r, n - 1)] else [])
  }

  /** Positions of tok in rows 1 .. m-1 of the grid, in row-major order. */
  function Matches(g: seq<seq<string>>, tok: string, m: nat): seq<Pos>
    requires m <= |g| || m <= 1
  {
    if m <= 1 then [] else Matches(g, tok, m - 1) + RowMatches(g[m - 1], m - 1, tok, |g[m - 1]|)
  }

  function LastOf(ps: seq<Pos>): Option<Pos> {
    if ps == [] then None else Some(ps[|ps| - 1])
  }

  lemma LastOfAppend(a: seq<Pos>, b: seq<Pos>)
    ensures LastOf(a + b) == if b == [] then LastOf(a) else LastOf(b)
  {
    if b == [] {
      assert a + b == a;
    }
  }

  /** find_positions: pos_4 is the last "4" and pos_1_list every "1", scanning the rows
      after the size line in row-major order. */
  method FindPositions(cfg: seq<string>) returns (pos4: Option<Pos>, pos1List: seq<Pos>)
    ensures pos4 == LastOf(Matches(Grid(cfg), "4", |cfg|))
    ensures pos1List == Matches(Grid(cfg), "1", |cfg|)
  {
    ghost var g := GridRows(cfg);
    pos4, pos1List := None, [];
    var rowIdx := 1;
    while rowIdx < |cfg|
      invariant 1 <= rowIdx && (rowIdx <= |cfg| || rowIdx == 1)
      invariant pos4 == LastOf(Matches(g, "4", rowIdx))
      invariant pos1List == Matches(g, "1", rowIdx)
    {
      var elements := Split(cfg[rowIdx]);
      ghost var m4, m1 := Matches(g, "4", rowIdx), Matches(g, "1", rowIdx);
      pos4, pos1List := ScanRow(elements, rowIdx, m4, m1, pos4, pos1List);
      RowDone(g, rowIdx, pos4, pos1List);
      rowIdx := rowIdx + 1;
    }
    RowsOfGrid(cfg, g);
  }

  /** The inner loop of find_positions over the tokens of row r, given the positions found
      in the rows before it (m4, m1). */
  method ScanRow(toks: seq<string>, r: nat, ghost m4: seq<Pos>, ghost m1: seq<Pos>,
                 pos4In: Option<Pos>, pos1In: seq<Pos>) returns (pos4: Option<Pos>, pos1List: seq<Pos>)
    requires pos4In == LastOf(m4) && pos1In == m1
    ensures pos4 == LastOf(m4 + RowMatches(toks, r, "4", |toks|))
    ensures pos1List == m1 + RowMatches(toks, r, "1", |toks|)
  {
    pos4, pos1List := pos4In, pos1In;
    assert m4 + RowMatches(toks, r, "4", 0) == m4;
    assert m1 + RowMatches(toks, r, "1", 0) == m1;
    for colIdx := 0 to |toks|
      invariant pos4 == LastOf(m4 + RowMatches(toks, r, "4", colIdx))
      invariant pos1List == m1 + RowMatches(toks, r, "1", colIdx)
    {
      CellStep(m4, m1, toks, r, colIdx, pos4, pos1List);
      if toks[colIdx] == "4" {
        pos4 := Some(Pos(r, colIdx));
      } else if toks[colIdx] == "1" {
        pos1List := pos1List + [Pos(r, colIdx)];
      }
    }
  }

  /** One token of find_positions' inner loop: a "4" becomes the latest pos_4, a "1" is
      appended to pos_1_list, anything else leaves both as they were. */
  lemma CellStep(m4: seq<Pos>, m1: seq<Pos>, toks: seq<string>, r: nat, c: nat,
                 pos4: Option<Pos>, pos1List: seq<Pos>)
    requires c < |toks|
    requires pos4 == LastOf(m4 + RowMatches(toks, r, "4", c))
    requires pos1List == m1 + RowMatches(toks, r, "1", c)
    ensures toks[c] == "4" ==>
              (Some(Pos(r, c)) == LastOf(m4 + RowMatches(toks, r, "4", c + 1))
               && pos1List == m1 + RowMatches(toks, r, "1", c + 1))
    ensures toks[c] == "1" ==>
              (pos4 == LastOf(m4 + RowMatches(toks, r, "4", c + 1))
               && pos1List + [Pos(r, c)] == m1 + RowMatches(toks, r, "1", c + 1))
    ensures toks[c] != "4" && toks[c] != "1" ==>
              (pos4 == LastOf(m4 + RowMatches(toks, r, "4", c + 1))
               && pos1List == m1 + RowMatches(toks, r, "1", c + 1))
  {
    RowStep(toks, r, "4", c);
    RowStep(toks, r, "1", c);
    if toks[c] == "4" {
      LastOfAppend(m4, RowMatches(toks, r, "4", c + 1));
      assert "4"[0] != "1"[0];
    } else if toks[c] == "1" {
      ConcatAssoc(m1, RowMatches(toks, r, "1", c), [Pos(r, c)]);
    }
  }

  /** The end of a row in find_positions: the row's matches extend those of the rows before. */
  lemma RowDone(g: seq<seq<string>>, r: nat, pos4: Option<Pos>, pos1List: seq<Pos>)
    requires 1 <= r < |g|
    requires pos4 == LastOf(Matches(g, "4", r) + RowMatches(g[r], r, "4", |g[r]|))
    requires pos1List == Matches(g, "1", r) + RowMatches(g[r], r, "1", |g[r]|)
    ensures pos4 == LastOf(Matches(g, "4", r + 1))
    ensures pos1List == Matches(g, "1", r + 1)
  {
  }

  /** One more column of a row: its position is appended when the token matches. */
  lemma RowStep(toks: seq<string>, r: nat, tok: string, n: nat)
    requires n < |toks|
    ensures toks[n] == tok ==> RowMatches(toks, r, tok, n + 1) == RowMatches(toks, r, tok, n) + [Pos(r, n)]
    ensures toks[n] != tok ==> RowMatches(toks, r, tok, n + 1) == RowMatches(toks, r, tok, n)
  {
    if toks[n] != tok {
      assert RowMatches(toks, r, tok, n) + [] == RowMatches(toks, r, tok, n);
    }
  }

  lemma {:induction false} RowMatchesExact(toks: seq<string>, r: nat, tok: string, n: nat, p: Pos)
    requires n <= |toks|
    ensures p in RowMatches(toks, r, tok, n) <==> p.row == r && p.col < n && toks[p.col] == tok
  {
    if n > 0 {
      RowMatchesExact(toks, r, tok, n - 1, p);
    }
  }

  /** A position is listed exactly when it names a grid token equal to tok; tokens are
      compared whole, so "04" is not a "4". */
  lemma {:induction false} MatchesExact(g: seq<seq<string>>, tok: string, m: nat, p: Pos)
    requires m <= |g|
    ensures p in Matches(g, tok, m) <==> InGrid(g, p) && p.row < m && At(g, p) == tok
  {
    if m > 1 {
      MatchesExact(g, tok, m - 1, p);
      RowMatchesExact(g[m - 1], m - 1, tok, |g[m - 1]|, p);
    }
  }

  /** Strictly increasing in row-major order. */
  predicate Increasing(ps: seq<Pos>) {
    forall a, b :: 0 <= a < b < |ps| ==> Before(ps[a], ps[b])
  }

  /** Every position listed for a row lies in that row, before column n, left to right. */
  lemma {:induction false} RowMatchesOrdered(toks: seq<string>, r: nat, tok: string, n: nat)
    requires n <= |toks|
    ensures forall a :: 0 <= a < |RowMatches(toks, r, tok, n)| ==>
      RowMatches(toks, r, tok, n)[a].row == r && RowMatches(toks, r, tok, n)[a].col < n
    ensures Increasing(RowMatches(toks, r, tok, n))
  {
    if n > 0 {
      var prev := RowMatches(toks, r, tok, n - 1);
      var ps := RowMatches(toks, r, tok, n);
      RowMatchesOrdered(toks, r, tok, n - 1);
      var last := if toks[n - 1] == tok then [Pos(r, n - 1)] else [];
      assert ps == prev + last;
      forall a | 0 <= a < |ps|
        ensures ps[a].row == r && ps[a].col < n
        ensures a < |prev| ==> ps[a] == prev[a] && ps[a].col < n - 1
        ensures a >= |prev| ==> ps[a] == Pos(r, n - 1)
      {
      }
      forall a, b | 0 <= a < b < |ps|
        ensures Before(ps[a], ps[b])
      {
        if b < |prev| {
          assert Before(prev[a], prev[b]);
        }
      }
    }
  }

  /** The listed positions are strictly increasing in row-major order, all in rows 1 .. m-1. */
  lemma {:induction false} MatchesOrdered(g: seq<seq<string>>, tok: string, m: nat)
    requires m <= |g|
    ensures forall a :: 0 <= a < |Matches(g, tok, m)| ==> 1 <= Matches(g, tok, m)[a].row < m
    ensures Increasing(Matches(g, tok, m))
  {
    if m > 1 {
      var prev := Matches(g, tok, m - 1);
      var row := RowMatches(g[m - 1], m - 1, tok, |g[m - 1]|);
      var ps := Matches(g, tok, m);
      MatchesOrdered(g, tok, m - 1);
      RowMatchesOrdered(g[m - 1], m - 1, tok, |g[m - 1]|);
      assert ps == prev + row;
      forall a | 0 <= a < |ps|
        ensures 1 <= ps[a].row < m
        ensures a < |prev| ==> ps[a] == prev[a] && ps[a].row < m - 1
        ensures a >= |prev| ==> ps[a] == row[a - |prev|] && ps[a].row == m - 1
      {
      }
      forall a, b | 0 <= a < b < |ps|
        ensures Before(ps[a], ps[b])
      {
        if b < |prev| {
          assert Before(prev[a], prev[b]);
        } else if a >= |prev| {
          assert Before(row[a - |prev|], row[b - |prev|]);
        }
      }
    }
  }

  /** No grid token equals tok. */
  ghost predicate Absent(g: seq<seq<string>>, tok: string) {
    forall p :: InGrid(g, p) ==> At(g, p) != tok
  }

  /** p holds tok and every other position holding tok comes before it. */
  ghost predicate LastHolding(g: seq<seq<string>>, tok: string, p: Pos) {
    InGrid(g, p) && At(g, p) == tok &&
    forall q :: InGrid(g, q) && At(g, q) == tok && q != p ==> Before(q, p)
  }

  /** pos_4 is None exactly when no grid token is "4"; otherwise it holds a "4" and every
      other "4" comes before it in row-major order. */
  lemma LastFour(g: seq<seq<string>>)
    ensures LastOf(Matches(g, "4", |g|)).None? <==> Absent(g, "4")
    ensures LastOf(Matches(g, "4", |g|)).Some? ==> LastHolding(g, "4", LastOf(Matches(g, "4", |g|)).value)
  {
    var ps := Matches(g, "4", |g|);
    forall p | InGrid(g, p)
      ensures p in ps <==> At(g, p) == "4"
    {
      MatchesExact(g, "4", |g|, p);
    }
    if ps != [] {
      var last := ps[|ps| - 1];
      assert InGrid(g, last) && At(g, last) == "4" by {
        MatchesExact(g, "4", |g|, last);
      }
      MatchesOrdered(g, "4", |g|);
      forall p | InGrid(g, p) && At(g, p) == "4" && p != last
        ensures Before(p, last)
      {
        var a :| 0 <= a < |ps| && ps[a] == p;
        assert a < |ps| - 1;
      }
    }
  }

  /** pos_1_list holds exactly the "1" tokens of the grid, in row-major order. */
  lemma OnesListed(g: seq<seq<string>>)
    ensures forall p :: p in Matches(g, "1", |g|) <==> InGrid(g, p) && At(g, p) == "1"
    ensures Increasing(Matches(g, "1", |g|))
  {
    forall p
      ensures p in Matches(g, "1", |g|) <==> InGrid(g, p) && At(g, p) == "1"
    {
      MatchesExact(g, "1", |g|, p);
    }
    MatchesOrdered(g, "1", |g|);
  }

  // ================================================================ swap_positions

  /** The simultaneous assignment m[r1][c1], m[r2][c2] = m[r2][c2], m[r1][c1]. */
  function SwapCells(g: seq<seq<string>>, p1: Pos, p2: Pos): (s: seq<seq<string>>)
    requires InGrid(g, p1) && InGrid(g, p2)
    ensures |s| == |g| && forall k :: 0 <= k < |g| ==> |s[k]| == |g[k]|
  {
    var v1, v2 := At(g, p1), At(g, p2);
    var g1 := g[p1.row := g[p1.row][p1.col := v2]];
    g1[p2.row := g1[p2.row][p2.col := v1]]
  }

  /** After the exchange p2 holds p1's old token, p1 holds p2's, all else is unchanged. */
  lemma SwapCellsAt(g: seq<seq<string>>, p1: Pos, p2: Pos)
    requires InGrid(g, p1) && InGrid(g, p2)
    ensures var s := SwapCells(g, p1, p2);
      InGrid(s, p1) && InGrid(s, p2) && s[0] == g[0] &&
      At(s, p2) == At(g, p1) && At(s, p1) == At(g, p2) &&
      forall q :: InGrid(g, q) && q != p1 && q != p2 ==> InGrid(s, q) && At(s, q) == At(g, q)
  {
  }

  /** Exchanging the same two tokens twice restores the grid. */
  lemma SwapCellsTwice(g: seq<seq<string>>, p1: Pos, p2: Pos)
    requires InGrid(g, p1) && InGrid(g, p2)
    ensures InGrid(SwapCells(g, p1, p2), p1) && InGrid(SwapCells(g, p1, p2), p2)
    ensures SwapCells(SwapCells(g, p1, p2), p1, p2) == g
  {
    var s := SwapCells(g, p1, p2);
    SwapCellsAt(g, p1, p2);
    SwapCellsAt(s, p1, p2);
    var t := SwapCells(s, p1, p2);
    forall k | 0 <= k < |g|
      ensures t[k] == g[k]
    {
      forall j | 0 <= j < |g[k]|
        ensures t[k][j] == g[k][j]
      {
        if k > 0 {
          assert At(t, Pos(k, j)) == At(g, Pos(k, j));
        }
      }
    }
  }

  /** Exchanging a token with itself leaves the grid as it was. */
  lemma SwapCellsSelf(g: seq<seq<string>>, p: Pos)
    requires InGrid(g, p)
    ensures SwapCells(g, p, p) == g
  {
    var row := g[p.row];
    assert row[p.col := At(g, p)] == row;
    assert g[p.row := row] == g;
  }

  /** The list swap_positions returns: the size line, then every grid row re-joined. */
  function Swapped(cfg: seq<string>, p1: Pos, p2: Pos): (r: seq<string>)
    requires InGrid(Grid(cfg), p1) && InGrid(Grid(cfg), p2)
    ensures |r| == |cfg|
  {
    var m := SwapCells(Grid(cfg), p1, p2);
    seq(|cfg|, k requires 0 <= k < |cfg| => if k == 0 then cfg[0] else Join(m[k]))
  }

  /** swap_positions; positions must name grid tokens (Python raises otherwise). */
  method SwapPositions(cfg: seq<string>, pos1: Pos, pos2: Pos) returns (result: seq<string>)
    requires InGrid(Grid(cfg), pos1) && InGrid(Grid(cfg), pos2)
    ensures result == Swapped(cfg, pos1, pos2)
  {
    var sizeLine := cfg[0];
    var matrix: seq<seq<string>> := [[]];
    for k := 1 to |cfg|
      invariant |matrix| == k && matrix == Grid(cfg)[..k]
    {
      matrix := matrix + [Split(cfg[k])];
    }
    assert matrix == Grid(cfg);

    var row1, col1 := pos1.row, pos1.col;
    var row2, col2 := pos2.row, pos2.col;
    var v1, v2 := matrix[row1][col1], matrix[row2][col2];
    matrix := matrix[row1 := matrix[row1][col1 := v2]];
    matrix := matrix[row2 := matrix[row2][col2 := v1]];
    assert matrix == SwapCells(Grid(cfg), pos1, pos2);

    result := [sizeLine];
    for k := 1 to |cfg|
      invariant |result| == k && result == Swapped(cfg, pos1, pos2)[..k]
    {
      result := result + [Join(matrix[k])];
    }
  }

  lemma GridWords(cfg: seq<string>)
    ensures forall k :: 0 <= k < |cfg| ==> AllWords(Grid(cfg)[k])
  {
    forall k | 1 <= k < |cfg|
      ensures AllWords(Grid(cfg)[k])
    {
      SplitWords(cfg[k]);
    }
  }

  /** Splitting the re-joined rows gives back the swapped token matrix: swap_positions
      moves exactly two tokens and re-joins every row with single spaces. */
  lemma GridOfSwapped(cfg: seq<string>, p1: Pos, p2: Pos)
    requires InGrid(Grid(cfg), p1) && InGrid(Grid(cfg), p2)
    ensures Swapped(cfg, p1, p2)[0] == cfg[0]
    ensures Grid(Swapped(cfg, p1, p2)) == SwapCells(Grid(cfg), p1, p2)
  {
    var m := SwapCells(Grid(cfg), p1, p2);
    var r := Swapped(cfg, p1, p2);
    GridWords(cfg);
    forall k | 1 <= k < |cfg|
      ensures Grid(r)[k] == m[k]
    {
      assert AllWords(m[k]) by {
        SwapCellsAt(Grid(cfg), p1, p2);
        forall j | 0 <= j < |m[k]|
          ensures IsWord(m[k][j])
        {
          assert IsWord(Grid(cfg)[k][j]);
          if Pos(k, j) == p1 {
            assert IsWord(At(Grid(cfg), p2));
          } else if Pos(k, j) == p2 {
            assert IsWord(At(Grid(cfg), p1));
          } else {
            assert m[k][j] == At(m, Pos(k, j));
          }
        }
      }
      SplitJoin(m[k]);
    }
  }

  /** Swapping the same pair twice gives back the size line and every token; swapping a
      position with itself changes no token. */
  lemma SwapInvolution(cfg: seq<string>, p1: Pos, p2: Pos)
    requires InGrid(Grid(cfg), p1) && InGrid(Grid(cfg), p2)
    ensures var r := Swapped(cfg, p1, p2);
      InGrid(Grid(r), p1) && InGrid(Grid(r), p2) &&
      Swapped(r, p1, p2)[0] == cfg[0] && Grid(Swapped(r, p1, p2)) == Grid(cfg)
    ensures Grid(Swapped(cfg, p1, p1)) == Grid(cfg)
  {
    var r := Swapped(cfg, p1, p2);
    var g := Grid(cfg);
    var s := SwapCells(g, p1, p2);
    assert Grid(r) == s && r[0] == cfg[0] by {
      GridOfSwapped(cfg, p1, p2);
    }
    assert InGrid(s, p1) && InGrid(s, p2) && SwapCells(s, p1, p2) == g by {
      SwapCellsTwice(g, p1, p2);
    }
    assert Swapped(r, p1, p2)[0] == r[0] && Grid(Swapped(r, p1, p2)) == SwapCells(Grid(r), p1, p2) by {
      GridOfSwapped(r, p1, p2);
    }
    assert Grid(Swapped(cfg, p1, p1)) == g by {
      GridOfSwapped(cfg, p1, p1);
      SwapCellsSelf(g, p1);
    }
  }

  /** Every token of the grid, row by row. */
  function Flatten(g: seq<seq<string>>): seq<string> {
    if g == [] then [] else g[0] + Flatten(g[1..])
  }

  lemma {:induction false} FlattenUpdate(g: seq<seq<string>>, i: nat, row: seq<string>)
    requires i < |g|
    ensures multiset(Flatten(g[i := row])) + multiset(g[i]) == multiset(Flatten(g)) + multiset(row)
  {
    var h := g[i := row];
    var mh, mg := multiset(Flatten(h)), multiset(Flatten(g));
    assert mg == multiset(g[0]) + multiset(Flatten(g[1..]));
    assert mh == multiset(h[0]) + multiset(Flatten(h[1..]));
    if i > 0 {
      var rest := multiset(Flatten(g[1..][i - 1 := row]));
      assert h[1..] == g[1..][i - 1 := row];
      assert rest + multiset(g[i]) == multiset(Flatten(g[1..])) + multiset(row) by {
        FlattenUpdate(g[1..], i - 1, row);
        assert g[1..][i - 1] == g[i];
      }
      forall x
        ensures (mh + multiset(g[i]))[x] == (mg + multiset(row))[x]
      {
        assert (rest + multiset(g[i]))[x] == (multiset(Flatten(g[1..])) + multiset(row))[x];
      }
    } else {
      assert h[1..] == g[1..];
    }
    assert mh + multiset(g[i]) == mg + multiset(row);
  }

  lemma MultisetUpdate(s: seq<string>, c: nat, v: string)
    requires c < |s|
    ensures multiset(s[c := v]) + multiset{s[c]} == multiset(s) + multiset{v}
  {
    assert s == s[..c] + [s[c]] + s[c + 1..];
    assert s[c := v] == s[..c] + [v] + s[c + 1..];
  }

  /** Bookkeeping for one cell update: if the grid's tokens F replace old row tokens Mo
      by Mn (F + Mo == A + Mn), and the row traded vo for vn (Mn + {vo} == Mo + {vn}),
      then F + {vo} == A + {vn}. */
  lemma Rebalance(f: multiset<string>, a: multiset<string>, mo: multiset<string>, mn: multiset<string>,
                  vo: multiset<string>, vn: multiset<string>)
    requires f + mo == a + mn && mn + vo == mo + vn
    ensures f + vo == a + vn
  {
    forall x
      ensures (f + vo)[x] == (a + vn)[x]
    {
      assert (f + mo)[x] == (a + mn)[x];
      assert (mn + vo)[x] == (mo + vn)[x];
    }
  }

  /** Exchanging two cells keeps the multiset of all grid tokens. */
  lemma SwapCellsKeepsTokens(g: seq<seq<string>>, p1: Pos, p2: Pos)
    requires InGrid(g, p1) && InGrid(g, p2)
    ensures multiset(Flatten(SwapCells(g, p1, p2))) == multiset(Flatten(g))
  {
    var v1, v2 := At(g, p1), At(g, p2);
    var row1 := g[p1.row][p1.col := v2];
    var g1 := g[p1.row := row1];
    var row2 := g1[p2.row][p2.col := v1];
    var g2 := g1[p2.row := row2];
    assert g2 == SwapCells(g, p1, p2);
    var A, F1, F2 := multiset(Flatten(g)), multiset(Flatten(g1)), multiset(Flatten(g2));
    assert F1 + multiset{v1} == A + multiset{v2} by {
      FlattenUpdate(g, p1.row, row1);
      MultisetUpdate(g[p1.row], p1.col, v2);
      Rebalance(F1, A, multiset(g[p1.row]), multiset(row1), multiset{v1}, multiset{v2});
    }
    assert F2 + multiset{v2} == F1 + multiset{v1} by {
      FlattenUpdate(g1, p2.row, row2);
      assert g1[p2.row][p2.col] == v2;
      MultisetUpdate(g1[p2.row], p2.col, v1);
      Rebalance(F2, F1, multiset(g1[p2.row]), multiset(row2), multiset{v2}, multiset{v1});
    }
    forall x
      ensures F2[x] == A[x]
    {
      assert (F2 + multiset{v2})[x] == (F1 + multiset{v1})[x];
      assert (F1 + multiset{v1})[x] == (A + multiset{v2})[x];
    }
  }

  /** The swap `main` performs: with pos_4 found and `choice` the index random.choice
      drew from pos_1_list, the "4" cell now holds "1", the chosen "1" cell holds "4",
      every other token stays, and the block keeps the same multiset of tokens. */
  lemma MainSwap(cfg: seq<string>, choice: nat)
    requires LastOf(Matches(Grid(cfg), "4", |cfg|)).Some?
    requires choice < |Matches(Grid(cfg), "1", |cfg|)|
    ensures var g := Grid(cfg);
      var pos4 := LastOf(Matches(g, "4", |cfg|)).value;
      var one := Matches(g, "1", |cfg|)[choice];
      InGrid(g, pos4) && InGrid(g, one) &&
      var s := Grid(Swapped(cfg, pos4, one));
      InGrid(s, pos4) && InGrid(s, one) && At(s, pos4) == "1" && At(s, one) == "4" &&
      (forall q :: InGrid(g, q) && q != pos4 && q != one ==> InGrid(s, q) && At(s, q) == At(g, q)) &&
      multiset(Flatten(s)) == multiset(Flatten(g))
  {
    var g := Grid(cfg);
    var pos4 := LastOf(Matches(g, "4", |cfg|)).value;
    var one := Matches(g, "1", |cfg|)[choice];
    LastFour(g);
    assert one in Matches(g, "1", |cfg|);
    MatchesExact(g, "1", |cfg|, one);
    GridOfSwapped(cfg, pos4, one);
    SwapCellsAt(g, pos4, one);
    SwapCellsKeepsTokens(g, pos4, one);
  }

  // ================================================================ get_next_filename

  /** f.replace("KARMA_", "").replace(".IN", ""). */
  function NumberPart(name: string): string {
    RemoveAll(RemoveAll(name, "KARMA_"), ".IN")
  }

  /** The numbers the loop of get_next_filename collects, in order: int(num_str) for
      every name where int() succeeds. */
  function Numbers(names: seq<string>): seq<int> {
    if names == [] then []
    else
      Numbers(names[..|names| - 1]) +
      match ParseInt(NumberPart(names[|names| - 1]))
      case Some(n) => [n]
      case None => []
  }

  /** max(numbers). */
  function MaxOf(ns: seq<int>): (m: int)
    requires ns != []
    ensures m in ns && forall n :: n in ns ==> n <= m
  {
    if |ns| == 1 then ns[0]
    else
      var m := MaxOf(ns[1..]);
      assert forall n :: n in ns[1..] ==> n in ns;
      assert forall n :: n in ns && n != ns[0] ==> n in ns[1..];
      if ns[0] > m then ns[0] else m
  }

  /** f"KARMA_{n:05d}.IN". */
  function FileName(n: int): string {
    "KARMA_" + Pad05(n) + ".IN"
  }

  /** The number get_next_filename writes: one more than the largest number read from
      an existing name, or 1 when no name yields a number. */
  function NextNumber(names: seq<string>): int {
    var ns := Numbers(names);
    if ns == [] then 1 else MaxOf(ns) + 1
  }

  /** get_next_filename with the glob result passed in as `existing`. */
  method GetNextFilename(existing: seq<string>) returns (name: string)
    ensures name == FileName(NextNumber(existing))
  {
    FirstFileName();
    if |existing| == 0 {
      return "KARMA_00001.IN";
    }
    var numbers: seq<int> := [];
    for k := 0 to |existing|
      invariant numbers == Numbers(existing[..k])
    {
      assert existing[..k + 1][..k] == existing[..k];
      var numStr := RemoveAll(RemoveAll(existing[k], "KARMA_"), ".IN");
      match ParseInt(numStr) {
        case Some(n) =>
          numbers := numbers + [n];
        case None =>
          assert numbers + [] == numbers;
      }
    }
    assert existing[..|existing|] == existing;
    if |numbers| == 0 {
      return "KARMA_00001.IN";
    }
    var nextNum := MaxOf(numbers) + 1;
    name := "KARMA_" + Pad05(nextNum) + ".IN";
  }

  lemma FirstFileName()
    ensures FileName(1) == "KARMA_00001.IN"
  {
    assert NatToString(1) == "1";
    assert Zeros(4) == "0000";
  }

  /** Every name whose number part parses contributes its number. */
  lemma {:induction false} NumbersComplete(names: seq<string>, k: nat)
    requires k < |names| && ParseInt(NumberPart(names[k])).Some?
    ensures ParseInt(NumberPart(names[k])).value in Numbers(names)
    decreases |names|
  {
    var init := names[..|names| - 1];
    if k < |names| - 1 {
      assert init[k] == names[k];
      NumbersComplete(init, k);
    }
  }

  /** Removing a leading occurrence of pat. */
  lemma RemoveAllLeading(pat: string, rest: string)
    requires pat != []
    ensures RemoveAll(pat + rest, pat) == RemoveAll(rest, pat)
  {
    assert (pat + rest)[..|pat|] == pat;
    assert (pat + rest)[|pat|..] == rest;
  }

  /** The number part of a generated name is the zero-padded number. */
  lemma NumberPartOfFileName(n: int)
    ensures NumberPart(FileName(n)) == Pad05(n)
  {
    var p := Pad05(n);
    assert forall k :: 0 <= k < |p| ==> p[k] == '-' || IsDigit(p[k]);
    NumberPartBetween(p);
  }

  /** Stripping "KARMA_" and ".IN" from "KARMA_" + p + ".IN" gives p back when p holds
      neither a 'K' nor a '.'. */
  lemma NumberPartBetween(p: string)
    requires forall k :: 0 <= k < |p| ==> p[k] != 'K' && p[k] != '.'
    ensures NumberPart("KARMA_" + p + ".IN") == p
  {
    assert RemoveAll("KARMA_" + p + ".IN", "KARMA_") == p + ".IN" by {
      assert "KARMA_" + p + ".IN" == "KARMA_" + (p + ".IN");
      RemoveAllLeading("KARMA_", p + ".IN");
      RemoveAllAbsent(p + ".IN", "KARMA_");
    }
    assert RemoveAll(p + ".IN", ".IN") == p by {
      RemoveAllAfterAbsent(p, ".IN", ".IN");
      RemoveAllLeading(".IN", "");
      assert p + "" == p;
    }
  }

  /** The generated name reads back as NextNumber, which exceeds the number of every
      existing name, so the new file never overwrites a listed one. */
  lemma NextFilenameFresh(existing: seq<string>)
    ensures ParseInt(NumberPart(FileName(NextNumber(existing)))) == Some(NextNumber(existing))
    ensures forall k :: 0 <= k < |existing| && ParseInt(NumberPart(existing[k])).Some? ==>
      ParseInt(NumberPart(existing[k])).value < NextNumber(existing)
    ensures FileName(NextNumber(existing)) !in existing
  {
    var next := NextNumber(existing);
    NumberPartOfFileName(next);
    ParsePad05(next);
    forall k | 0 <= k < |existing| && ParseInt(NumberPart(existing[k])).Some?
      ensures ParseInt(NumberPart(existing[k])).value < next
    {
      NumbersComplete(existing, k);
    }
  }

  // ================================================================ write_karma_file

  /** f"     {line}\n". */
  function Indented(row: string): string {
    "     " + row + "\n"
  }

  /** Python's lines[:cfg_start + 1] length. */
  function HeadLength(lines: seq<string>, cfgStart: nat): nat {
    if cfgStart + 1 <= |lines| then cfgStart + 1 else |lines|
  }

  /** Where lines[cfg_end:] starts; lines[None:] is the whole list. */
  function TailStart(lines: seq<string>, cfgEnd: Option<nat>): nat {
    match cfgEnd
    case None => 0
    case Some(e) => if e <= |lines| then e else |lines|
  }

  /** The lines write_karma_file writes. */
  function Spliced(lines: seq<string>, cfgStart: nat, cfgEnd: Option<nat>, newCfg: seq<string>): seq<string> {
    lines[..HeadLength(lines, cfgStart)] + seq(|newCfg|, k requires 0 <= k < |newCfg| => Indented(newCfg[k])) +
    lines[TailStart(lines, cfgEnd)..]
  }

  /** write_karma_file: the file's lines up to the header, the new block indented, then
      the lines from the terminator on; the name comes from get_next_filename. */
  method WriteKarmaFile(lines: seq<string>, cfgStart: nat, cfgEnd: Option<nat>, newCfg: seq<string>,
                        existing: seq<string>)
    returns (newFilename: string, newLines: seq<string>)
    ensures newLines == Spliced(lines, cfgStart, cfgEnd, newCfg)
    ensures newFilename == FileName(NextNumber(existing))
  {
    newLines := lines[..HeadLength(lines, cfgStart)];
    for k := 0 to |newCfg|
      invariant newLines == lines[..HeadLength(lines, cfgStart)] + seq(k, j requires 0 <= j < k => Indented(newCfg[j]))
    {
      newLines := newLines + [Indented(newCfg[k])];
    }
    var tail := match cfgEnd case None => lines case Some(e) => if e <= |lines| then lines[e..] else [];
    assert tail == lines[TailStart(lines, cfgEnd)..];
    newLines := newLines + tail;
    newFilename := GetNextFilename(existing);
  }

  /** The written file, line by line: the head is copied, the block is the new rows
      indented, the tail is copied. */
  lemma SplicedLayout(lines: seq<string>, cfgStart: nat, cfgEnd: Option<nat>, newCfg: seq<string>)
    ensures var out := Spliced(lines, cfgStart, cfgEnd, newCfg);
      var h, t := HeadLength(lines, cfgStart), TailStart(lines, cfgEnd);
      |out| == h + |newCfg| + (|lines| - t)
    ensures forall k :: 0 <= k < HeadLength(lines, cfgStart) ==>
      Spliced(lines, cfgStart, cfgEnd, newCfg)[k] == lines[k]
    ensures forall k :: 0 <= k < |newCfg| ==>
      Spliced(lines, cfgStart, cfgEnd, newCfg)[HeadLength(lines, cfgStart) + k] == Indented(newCfg[k])
    ensures forall k :: TailStart(lines, cfgEnd) <= k < |lines| ==>
      Spliced(lines, cfgStart, cfgEnd, newCfg)[HeadLength(lines, cfgStart) + |newCfg| + k - TailStart(lines, cfgEnd)] == lines[k]
  {
  }

  /** A block row that writes back as a block row: non-empty, no whitespace at either end,
      no 'CFG' inside and no leading '%'. */
  predicate CleanRow(row: string) {
    row != [] && !IsSpace(row[0]) && !IsSpace(row[|row| - 1]) &&
    !Contains(row, "CFG") && !StartsWith(row, "%")
  }

  /** An indented clean row is read back as the row itself. */
  lemma IndentedRow(row: string)
    requires CleanRow(row)
    ensures Strip(Indented(row)) == row
    ensures !HasCfg(Indented(row)) && !IsTerminator(Indented(row)) && !IsBlank(Indented(row))
  {
    assert AllSpace("     ") && AllSpace("\n");
    StripPadded("     ", row, "\n");
    if HasCfg(Indented(row)) {
      ContainsPadded("     ", row, "\n", "CFG");
    }
  }

  lemma {:induction false} StrippedIndented(rows: seq<string>)
    requires forall k :: 0 <= k < |rows| ==> CleanRow(rows[k])
    ensures StrippedLines(seq(|rows|, k requires 0 <= k < |rows| => Indented(rows[k]))) == rows
  {
    var block := seq(|rows|, k requires 0 <= k < |rows| => Indented(rows[k]));
    if rows != [] {
      assert block[1..] == seq(|rows[1..]|, k requires 0 <= k < |rows[1..]| => Indented(rows[1..][k]));
      IndentedRow(rows[0]);
      StrippedIndented(rows[1..]);
      assert rows == [rows[0]] + rows[1..];
    }
  }

  /** The new rows of a written file are neither headers nor terminators. */
  lemma SplicedRowsClean(lines: seq<string>, h: nat, e: nat, newCfg: seq<string>)
    requires h < e <= |lines|
    requires forall k :: 0 <= k < |newCfg| ==> CleanRow(newCfg[k])
    ensures forall m :: h < m < h + 1 + |newCfg| ==>
      !HasCfg(Spliced(lines, h, Some(e), newCfg)[m]) && !IsTerminator(Spliced(lines, h, Some(e), newCfg)[m])
  {
    SplicedLayout(lines, h, Some(e), newCfg);
    forall m | h < m < h + 1 + |newCfg|
      ensures !HasCfg(Spliced(lines, h, Some(e), newCfg)[m])
      ensures !IsTerminator(Spliced(lines, h, Some(e), newCfg)[m])
    {
      assert Spliced(lines, h, Some(e), newCfg)[m] == Indented(newCfg[m - h - 1]);
      IndentedRow(newCfg[m - h - 1]);
    }
  }

  /** The new rows of a written file read back as the rows themselves. */
  lemma SplicedRowsRead(lines: seq<string>, h: nat, e: nat, newCfg: seq<string>)
    requires h < e <= |lines|
    requires forall k :: 0 <= k < |newCfg| ==> CleanRow(newCfg[k])
    ensures StrippedLines(Spliced(lines, h, Some(e), newCfg)[h + 1..h + 1 + |newCfg|]) == newCfg
  {
    var rows := seq(|newCfg|, k requires 0 <= k < |newCfg| => Indented(newCfg[k]));
    assert Spliced(lines, h, Some(e), newCfg)[h + 1..h + 1 + |newCfg|] == rows;
    StrippedIndented(newCfg);
  }

  /** The written file has one section: the old header, then the new rows, then the old
      terminator. */
  lemma SplicedOneSection(lines: seq<string>, h: nat, e: nat, newCfg: seq<string>)
    requires h < e < |lines|
    requires forall m :: 0 <= m < h ==> !HasCfg(lines[m])
    requires HasCfg(lines[h])
    requires IsTerminator(lines[e]) && !HasCfg(lines[e])
    requires forall k :: 0 <= k < |newCfg| ==> CleanRow(newCfg[k])
    ensures OneSection(Spliced(lines, h, Some(e), newCfg), h, h + 1 + |newCfg|)
    ensures h + 1 + |newCfg| < |Spliced(lines, h, Some(e), newCfg)|
    ensures Spliced(lines, h, Some(e), newCfg)[h] == lines[h]
  {
    SplicedLayout(lines, h, Some(e), newCfg);
    SplicedRowsClean(lines, h, e, newCfg);
  }

  /** Reading back a written file: with the header at line h and the terminator at line e,
      the new file's section starts at the same header, ends right after the new rows,
      and yields the header's size token followed by exactly the rows written. */
  lemma ReextractSpliced(lines: seq<string>, h: nat, e: nat, newCfg: seq<string>)
    requires h < e < |lines|
    requires forall m :: 0 <= m < h ==> !HasCfg(lines[m])
    requires HasCfg(lines[h])
    requires IsTerminator(lines[e]) && !HasCfg(lines[e])
    requires forall k :: 0 <= k < |newCfg| ==> CleanRow(newCfg[k])
    ensures ExtractFrom(Spliced(lines, h, Some(e), newCfg), 0, None).start == Some(h)
    ensures ExtractFrom(Spliced(lines, h, Some(e), newCfg), 0, None).end.Some?
    ensures ExtractFrom(Spliced(lines, h, Some(e), newCfg), 0, None).end.value == h + 1 + |newCfg|
    ensures ExtractFrom(Spliced(lines, h, Some(e), newCfg), 0, None).cfgLines == SizeToken(lines[h]) + newCfg
  {
    SplicedOneSection(lines, h, e, newCfg);
    SplicedRowsRead(lines, h, e, newCfg);
    ReadBack(Spliced(lines, h, Some(e), newCfg), h, h + 1 + |newCfg|, lines[h], newCfg);
  }

  /** A file with one section whose rows strip to `rows` reads back as that section. */
  lemma ReadBack(out: seq<string>, h: nat, f: nat, header: string, rows: seq<string>)
    requires OneSection(out, h, f) && f < |out| && out[h] == header
    requires StrippedLines(out[h + 1..f]) == rows
    ensures ExtractFrom(out, 0, None) == Section(Some(h), Some(f), SizeToken(header) + rows)
  {
    ExtractSection(out, h, f);
  }

  // ================================================================ main

  datatype Outcome =
    | NoFour                                          // "Could not find '4' in CFG."
    | NoOne                                           // "Could not find '1' in CFG."
    | Written(newFilename: string, newLines: seq<string>)

  /** pos_1_list for the block of the given file. */
  function Ones(lines: seq<string>): seq<Pos> {
    var cfg := ExtractFrom(lines, 0, None).cfgLines;
    Matches(Grid(cfg), "1", |cfg|)
  }

  /** pos_4 for the block of the given file. */
  function Four(lines: seq<string>): Option<Pos> {
    var cfg := ExtractFrom(lines, 0, None).cfgLines;
    LastOf(Matches(Grid(cfg), "4", |cfg|))
  }

  /** Once a header has been seen, cfg_start stays set. */
  lemma {:induction false} StartStays(lines: seq<string>, i: nat, start: Option<nat>)
    requires start.Some?
    ensures ExtractFrom(lines, i, start).start.Some?
    decreases |lines| - i
  {
    if i < |lines| {
      if HasCfg(lines[i]) {
        StartStays(lines, i + 1, Some(i));
      } else if !IsTerminator(lines[i]) {
        StartStays(lines, i + 1, start);
      }
    }
  }

  /** With no cfg_start nothing was collected. */
  lemma {:induction false} NoStartNoLines(lines: seq<string>, i: nat)
    ensures ExtractFrom(lines, i, None).start.None? ==> ExtractFrom(lines, i, None).cfgLines == []
    decreases |lines| - i
  {
    if i < |lines| {
      if HasCfg(lines[i]) {
        StartStays(lines, i + 1, Some(i));
      } else {
        NoStartNoLines(lines, i + 1);
      }
    }
  }

  /** main without the console output: `lines` is KARMA.IN, `existing` the glob result and
      `choice` the index random.choice draws from pos_1_list. */
  method RunSwap(lines: seq<string>, choice: nat, existing: seq<string>) returns (outcome: Outcome)
    requires Ones(lines) == [] || choice < |Ones(lines)|
    ensures Four(lines).None? ==> outcome == NoFour
    ensures Four(lines).Some? && Ones(lines) == [] ==> outcome == NoOne
    ensures Four(lines).Some? && Ones(lines) != [] ==>
      var sec := ExtractFrom(lines, 0, None);
      sec.start.Some? && InGrid(Grid(sec.cfgLines), Four(lines).value) &&
      InGrid(Grid(sec.cfgLines), Ones(lines)[choice]) &&
      outcome == Written(FileName(NextNumber(existing)),
                         Spliced(lines, sec.start.value, sec.end,
                                 Swapped(sec.cfgLines, Four(lines).value, Ones(lines)[choice])))
  {
    var cfgStart, cfgEnd, cfgData := ExtractCfgSection(lines);
    var pos4, pos1List := FindPositions(cfgData);
    if pos4.None? {
      return NoFour;
    }
    if |pos1List| == 0 {
      return NoOne;
    }
    var selected := pos1List[choice];
    assert InGrid(Grid(cfgData), pos4.value) by {
      LastFour(Grid(cfgData));
    }
    assert InGrid(Grid(cfgData), selected) by {
      assert selected in pos1List;
      MatchesExact(Grid(cfgData), "1", |cfgData|, selected);
    }
    assert cfgStart.Some? by {
      NoStartNoLines(lines, 0);
    }
    var newCfgData := SwapPositions(cfgData, pos4.value, selected);
    var newFilename, newLines := WriteKarmaFile(lines, cfgStart.value, cfgEnd, newCfgData, existing);
    outcome := Written(newFilename, newLines);
  }
}
