/** The line-level parts of full_map.py around the expansion: `read_karma_cfg` reads the
    centre pin and the one-eighth map from the "CFG ... %" block, `randomize_eighth_map`
    redraws every cell from ALLOWED_TYPES, and `write_full_karma_in` replaces the block
    with a new header and the rows of the full map. The header test here is
    `line.strip().startswith("CFG")`. */
module FullMapCfg {
  import opened Text
  import opened KarmaFormat
  import FullMap

  /** The Python exceptions the reader can raise on a malformed block. */
  datatype PyError = IndexError | ValueError

  /** (center_pin, eighth_map) as read_karma_cfg returns them. */
  datatype Loaded = Loaded(centerPin: Option<int>, eighth: seq<seq<int>>)

  datatype Result = Ok(value: Loaded) | Raised(error: PyError)

  // ================================================================ read_karma_cfg

  /** `[int(x) for x in tokens]`: None where some int() raises ValueError. */
  function ParseRow(tokens: seq<string>): (r: Option<seq<int>>)
    ensures r.Some? ==> |r.value| == |tokens|
  {
    if tokens == [] then Some([])
    else match ParseInt(tokens[0])
      case None => None
      case Some(v) =>
        match ParseRow(tokens[1..])
        case None => None
        case Some(rest) => Some([v] + rest)
  }

  /** A row parses exactly when every token does, and then holds their values in order. */
  lemma {:induction false} ParseRowTokens(tokens: seq<string>)
    ensures ParseRow(tokens).Some? <==> forall k :: 0 <= k < |tokens| ==> ParseInt(tokens[k]).Some?
    ensures ParseRow(tokens).Some? ==>
      forall k :: 0 <= k < |tokens| ==> ParseInt(tokens[k]) == Some(ParseRow(tokens).value[k])
  {
    if tokens != [] {
      ParseRowTokens(tokens[1..]);
      forall k | 1 <= k < |tokens|
        ensures tokens[k] == tokens[1..][k - 1]
      {
      }
    }
  }

  /** The rows so far in front of what the rest of the scan reads. */
  function Prefixed(rows: seq<seq<int>>, r: Result): Result {
    match r
    case Raised(_) => r
    case Ok(l) => Ok(l.(eighth := rows + l.eighth))
  }

  /** What the loop of read_karma_cfg produces from this point on, given whether it is
      inside the block and the pin read so far. A header line is checked first, so one
      inside the block replaces the pin and the rows go on accumulating. */
  function Scan(lines: seq<string>, inCfg: bool, pin: Option<int>): Result
    decreases |lines|
  {
    if lines == [] then Ok(Loaded(pin, []))
    else if IsCfgHeader(lines[0]) then
      var parts := Split(lines[0]);
      if |parts| < 2 then Raised(IndexError)
      else
        match ParseInt(parts[1])
        case None => Raised(ValueError)
        case Some(n) => Scan(lines[1..], true, Some(n))
    else if inCfg && IsTerminator(lines[0]) then Ok(Loaded(pin, []))
    else if inCfg && !IsBlank(lines[0]) then
      match ParseRow(Split(lines[0]))
      case None => Raised(ValueError)
      case Some(row) => Prefixed([row], Scan(lines[1..], true, pin))
    else Scan(lines[1..], inCfg, pin)
  }

  /** One line of the scan, case by case. */
  lemma ScanStep(line: string, more: seq<string>, inCfg: bool, pin: Option<int>)
    ensures (IsCfgHeader(line) && |Split(line)| < 2) ==>
      Scan([line] + more, inCfg, pin) == Raised(IndexError)
    ensures (IsCfgHeader(line) && |Split(line)| >= 2 && ParseInt(Split(line)[1]).None?) ==>
      Scan([line] + more, inCfg, pin) == Raised(ValueError)
    ensures (IsCfgHeader(line) && |Split(line)| >= 2 && ParseInt(Split(line)[1]).Some?) ==>
      Scan([line] + more, inCfg, pin) == Scan(more, true, ParseInt(Split(line)[1]))
    ensures (!IsCfgHeader(line) && inCfg && IsTerminator(line)) ==>
      Scan([line] + more, inCfg, pin) == Ok(Loaded(pin, []))
    ensures (!IsCfgHeader(line) && inCfg && !IsTerminator(line) && !IsBlank(line)
             && ParseRow(Split(line)).None?) ==>
      Scan([line] + more, inCfg, pin) == Raised(ValueError)
    ensures (!IsCfgHeader(line) && inCfg && !IsTerminator(line) && !IsBlank(line)
             && ParseRow(Split(line)).Some?) ==>
      Scan([line] + more, inCfg, pin) == Prefixed([ParseRow(Split(line)).value], Scan(more, true, pin))
    ensures (!IsCfgHeader(line) && !(inCfg && (IsTerminator(line) || !IsBlank(line)))) ==>
      Scan([line] + more, inCfg, pin) == Scan(more, inCfg, pin)
  {
    assert ([line] + more)[0] == line && ([line] + more)[1..] == more;
  }

  /** read_karma_cfg without the file read: `lines` is the file's lines. */
  method ReadKarmaCfg(lines: seq<string>) returns (r: Result)
    ensures r == Scan(lines, false, None)
  {
    var centerPin: Option<int> := None;
    var eighth: seq<seq<int>> := [];
    var inCfg := false;
    var i := 0;
    while i < |lines|
      invariant 0 <= i <= |lines|
      invariant Prefixed(eighth, Scan(lines[i..], inCfg, centerPin)) == Scan(lines, false, None)
    {
      var line := lines[i];
      assert lines[i..] == [line] + lines[i + 1..];
      ScanStep(line, lines[i + 1..], inCfg, centerPin);
      if IsCfgHeader(line) {
        var parts := Split(line);
        if |parts| < 2 {
          return Raised(IndexError);
        }
        var n := ParseInt(parts[1]);
        if n.None? {
          return Raised(ValueError);
        }
        centerPin := n;
        inCfg := true;
        i := i + 1;
        continue;
      }
      if inCfg {
        if IsTerminator(line) {
          assert eighth + [] == eighth;
          break;
        }
        if !IsBlank(line) {
          var row := ParseRow(Split(line));
          if row.None? {
            return Raised(ValueError);
          }
          PrefixedTwice(eighth, [row.value], Scan(lines[i + 1..], true, centerPin));
          eighth := eighth + [row.value];
          i := i + 1;
          continue;
        }
      }
      i := i + 1;
    }
    if i == |lines| {
      assert lines[i..] == [];
      assert eighth + [] == eighth;
    }
    r := Ok(Loaded(centerPin, eighth));
  }

  /** The rows of a block: every non-blank line split and parsed; None if one fails. */
  function ParseRows(block: seq<string>): (r: Option<seq<seq<int>>>)
    ensures r.Some? ==> |r.value| <= |block|
  {
    if block == [] then Some([])
    else if IsBlank(block[0]) then ParseRows(block[1..])
    else
      match ParseRow(Split(block[0]))
      case None => None
      case Some(row) =>
        match ParseRows(block[1..])
        case None => None
        case Some(rest) => Some([row] + rest)
  }

  /** No line is a header for full_map.py. */
  ghost predicate NoHeader(lines: seq<string>) {
    forall k :: 0 <= k < |lines| ==> !IsCfgHeader(lines[k])
  }

  /** Lines that may stand inside a block: neither a header nor a terminator. */
  ghost predicate InBlock(block: seq<string>) {
    forall k :: 0 <= k < |block| ==> !IsCfgHeader(block[k]) && !IsTerminator(block[k])
  }

  /** The file has one block for full_map.py: no header before line h, the header at h,
      no header or terminator strictly between h and e, and the terminator at e unless e
      is the end of the file. */
  ghost predicate Framed(lines: seq<string>, h: nat, e: nat) {
    h < e <= |lines| &&
    NoHeader(lines[..h]) &&
    IsCfgHeader(lines[h]) &&
    InBlock(lines[h + 1..e]) &&
    (e < |lines| ==> IsTerminator(lines[e]))
  }

  /** The slices a framed file is cut into. */
  lemma Pieces<T>(lines: seq<T>, h: nat, e: nat)
    requires h < e <= |lines|
    ensures lines[..h] + lines[h..] == lines
    ensures lines[h..][0] == lines[h] && lines[h..][1..] == lines[h + 1..e] + lines[e..]
  {
  }

  /** What read_karma_cfg returns for a framed file, from its header and its block alone. */
  function ReadOf(header: string, block: seq<string>): Result {
    var parts := Split(header);
    if |parts| < 2 then Raised(IndexError)
    else match (ParseInt(parts[1]), ParseRows(block))
      case (None, _) => Raised(ValueError)
      case (_, None) => Raised(ValueError)
      case (Some(n), Some(rows)) => Ok(Loaded(Some(n), rows))
  }

  /** Lines before the first header are skipped. */
  lemma {:induction false} ScanSkipsPrefix(pre: seq<string>, rest: seq<string>)
    requires NoHeader(pre)
    ensures Scan(pre + rest, false, None) == Scan(rest, false, None)
  {
    if pre != [] {
      assert (pre + rest)[0] == pre[0];
      assert (pre + rest)[1..] == pre[1..] + rest;
      ScanSkipsPrefix(pre[1..], rest);
    } else {
      assert pre + rest == rest;
    }
  }

  lemma PrefixedTwice(a: seq<seq<int>>, b: seq<seq<int>>, r: Result)
    ensures Prefixed(a, Prefixed(b, r)) == Prefixed(a + b, r)
  {
    if r.Ok? {
      ConcatAssoc(a, b, r.value.eighth);
    }
  }

  /** Inside the block, the lines before the terminator give the parsed non-blank rows. */
  lemma {:induction false} ScanBlock(block: seq<string>, rest: seq<string>, pin: Option<int>)
    requires InBlock(block)
    ensures Scan(block + rest, true, pin)
            == match ParseRows(block)
               case None => Raised(ValueError)
               case Some(rows) => Prefixed(rows, Scan(rest, true, pin))
  {
    if block == [] {
      assert block + rest == rest;
      assert Prefixed([], Scan(rest, true, pin)) == Scan(rest, true, pin);
    } else {
      assert (block + rest)[0] == block[0];
      assert (block + rest)[1..] == block[1..] + rest;
      ScanBlock(block[1..], rest, pin);
      if !IsBlank(block[0]) && ParseRow(Split(block[0])).Some? && ParseRows(block[1..]).Some? {
        PrefixedTwice([ParseRow(Split(block[0])).value], ParseRows(block[1..]).value, Scan(rest, true, pin));
      }
    }
  }

  /** For a framed file read_karma_cfg reads the header's second token as the pin and the
      block's non-blank lines as the rows; a header without a second token raises
      IndexError, and a token that is not an integer raises ValueError. */
  lemma ReadFramed(lines: seq<string>, h: nat, e: nat)
    requires Framed(lines, h, e)
    ensures Scan(lines, false, None) == ReadOf(lines[h], lines[h + 1..e])
  {
    var block := lines[h + 1..e];
    var rest := lines[e..];
    Pieces(lines, h, e);
    ScanSkipsPrefix(lines[..h], lines[h..]);
    var parts := Split(lines[h]);
    if |parts| >= 2 && ParseInt(parts[1]).Some? {
      var n := ParseInt(parts[1]).value;
      assert Scan(lines[h..], false, None) == Scan(block + rest, true, Some(n));
      ScanBlock(block, rest, Some(n));
      assert Scan(rest, true, Some(n)) == Ok(Loaded(Some(n), [])) by {
        if e < |lines| {
          assert rest[0] == lines[e];
          TerminatorIsNotHeader(lines[e]);
        } else {
          assert rest == [];
        }
      }
      if ParseRows(block).Some? {
        assert ParseRows(block).value + [] == ParseRows(block).value;
      }
    }
  }

  /** With no header line read_karma_cfg returns (None, []). */
  lemma NoHeaderReadsNothing(lines: seq<string>)
    requires NoHeader(lines)
    ensures Scan(lines, false, None) == Ok(Loaded(None, []))
  {
    ScanSkipsPrefix(lines, []);
    assert lines + [] == lines;
  }

  // ================================================================ randomize_eighth_map

  /** The draws fit the map: one index into ALLOWED_TYPES per cell. */
  predicate DrawsFit(baseMap: seq<seq<int>>, draws: seq<seq<nat>>) {
    |draws| == |baseMap| &&
    forall i :: 0 <= i < |baseMap| ==>
      |draws[i]| == |baseMap[i]| &&
      forall j :: 0 <= j < |draws[i]| ==> draws[i][j] < |FullMap.AllowedTypes|
  }

  /** randomize_eighth_map with np.random.choice's picks given as `draws`: a new map of the
      same shape whose cell (i, j) is ALLOWED_TYPES[draws[i][j]]. */
  method RandomizeEighthMap(baseMap: seq<seq<int>>, draws: seq<seq<nat>>) returns (newMap: seq<seq<int>>)
    requires DrawsFit(baseMap, draws)
    ensures |newMap| == |baseMap|
    ensures forall i :: 0 <= i < |newMap| ==> |newMap[i]| == |baseMap[i]|
    ensures forall i, j :: 0 <= i < |newMap| && 0 <= j < |newMap[i]| ==>
      newMap[i][j] == FullMap.AllowedTypes[draws[i][j]]
    ensures forall i, j :: 0 <= i < |newMap| && 0 <= j < |newMap[i]| ==> newMap[i][j] in {1, 2, 4, 5}
  {
    newMap := [];
    for i := 0 to |baseMap|
      invariant |newMap| == i
      invariant forall a :: 0 <= a < i ==> |newMap[a]| == |baseMap[a]|
      invariant forall a, j :: 0 <= a < i && 0 <= j < |newMap[a]| ==>
        newMap[a][j] == FullMap.AllowedTypes[draws[a][j]]
    {
      var newRow: seq<int> := [];
      for j := 0 to |baseMap[i]|
        invariant |newRow| == j
        invariant forall k :: 0 <= k < j ==> newRow[k] == FullMap.AllowedTypes[draws[i][k]]
      {
        newRow := newRow + [FullMap.AllowedTypes[draws[i][j]]];
      }
      newMap := newMap + [newRow];
    }
  }

  /** The index of an allowed type in ALLOWED_TYPES. */
  function DrawOf(v: int): (d: nat)
    requires v in {1, 2, 4, 5}
    ensures d < |FullMap.AllowedTypes| && FullMap.AllowedTypes[d] == v
  {
    if v == 1 then 0 else if v == 2 then 1 else if v == 4 then 2 else 3
  }

  /** The draws pick exactly the values of `target`. */
  predicate Draws(draws: seq<seq<nat>>, target: seq<seq<int>>)
    requires |draws| == |target|
    requires forall i :: 0 <= i < |target| ==> |draws[i]| == |target[i]|
    requires forall i, j :: 0 <= i < |draws| && 0 <= j < |draws[i]| ==> draws[i][j] < |FullMap.AllowedTypes|
  {
    forall i, j :: 0 <= i < |target| && 0 <= j < |target[i]| ==> FullMap.AllowedTypes[draws[i][j]] == target[i][j]
  }

  /** Every map of the base map's shape over 1, 2, 4, 5 is the result for some draws. */
  lemma EveryMapReachable(baseMap: seq<seq<int>>, target: seq<seq<int>>)
    requires |target| == |baseMap|
    requires forall i :: 0 <= i < |target| ==> |target[i]| == |baseMap[i]|
    requires forall i, j :: 0 <= i < |target| && 0 <= j < |target[i]| ==> target[i][j] in {1, 2, 4, 5}
    ensures exists draws :: DrawsFit(baseMap, draws) && Draws(draws, target)
  {
    var draws := seq(|target|, i requires 0 <= i < |target| =>
      seq(|target[i]|, j requires 0 <= j < |target[i]| => DrawOf(target[i][j])));
    assert DrawsFit(baseMap, draws);
    assert Draws(draws, target);
  }

  // ================================================================ write_full_karma_in

  /** The new header, f"   CFG  {full_map.shape[0]}\n". */
  function HeaderLine(n: int): string {
    "   CFG  " + IntToString(n) + "\n"
  }

  /** str(int(x)) for each cell of a row. */
  function Tokens(row: seq<int>): (ts: seq<string>)
    ensures |ts| == |row|
  {
    seq(|row|, k requires 0 <= k < |row| => IntToString(row[k]))
  }

  /** One written row: five spaces, the cells joined by single spaces, a newline. */
  function RenderRow(row: seq<int>): string {
    "     " + Join(Tokens(row)) + "\n"
  }

  function Rendered(rows: seq<seq<int>>): (out: seq<string>)
    ensures |out| == |rows|
  {
    seq(|rows|, k requires 0 <= k < |rows| => RenderRow(rows[k]))
  }

  lemma RenderedSnoc(rows: seq<seq<int>>, k: nat)
    requires k < |rows|
    ensures Rendered(rows[..k + 1]) == Rendered(rows[..k]) + [RenderRow(rows[k])]
  {
    var a := Rendered(rows[..k + 1]);
    var b := Rendered(rows[..k]) + [RenderRow(rows[k])];
    assert |a| == |b|;
    forall m | 0 <= m < |a|
      ensures a[m] == b[m]
    {
      assert rows[..k + 1][m] == rows[m];
    }
  }

  /** The lines write_full_karma_in emits from this point on, given whether it is inside a
      block: headers are replaced, block lines dropped, and the rows written in front of
      the terminator, which is kept; a later header opens another block. */
  function Rewrite(lines: seq<string>, inCfg: bool, rows: seq<seq<int>>): seq<string>
    decreases |lines|
  {
    if lines == [] then []
    else if IsCfgHeader(lines[0]) then [HeaderLine(|rows|)] + Rewrite(lines[1..], true, rows)
    else if inCfg then
      if IsTerminator(lines[0]) then Rendered(rows) + [lines[0]] + Rewrite(lines[1..], false, rows)
      else Rewrite(lines[1..], true, rows)
    else [lines[0]] + Rewrite(lines[1..], false, rows)
  }

  /** write_full_karma_in without the file read and write: `fullMap` is the full map's rows. */
  method WriteFullKarmaIn(lines: seq<string>, fullMap: seq<seq<int>>) returns (newLines: seq<string>)
    ensures newLines == Rewrite(lines, false, fullMap)
  {
    newLines := [];
    var inCfg := false;
    for i := 0 to |lines|
      invariant newLines + Rewrite(lines[i..], inCfg, fullMap) == Rewrite(lines, false, fullMap)
    {
      var line := lines[i];
      assert lines[i..] == [line] + lines[i + 1..];
      ghost var rest := Rewrite(lines[i + 1..], false, fullMap);
      if IsCfgHeader(line) {
        inCfg := true;
        ConcatAssoc(newLines, [HeaderLine(|fullMap|)], Rewrite(lines[i + 1..], true, fullMap));
        newLines := newLines + [HeaderLine(|fullMap|)];
        continue;
      }
      if inCfg {
        if IsTerminator(line) {
          ghost var before := newLines;
          for k := 0 to |fullMap|
            invariant newLines == before + Rendered(fullMap[..k])
          {
            RenderedSnoc(fullMap, k);
            ConcatAssoc(before, Rendered(fullMap[..k]), [RenderRow(fullMap[k])]);
            newLines := newLines + [RenderRow(fullMap[k])];
          }
          assert fullMap[..|fullMap|] == fullMap;
          newLines := newLines + [line];
          inCfg := false;
          assert newLines + rest == before + (Rendered(fullMap) + [line] + rest) by {
            ConcatAssoc(before, Rendered(fullMap) + [line], rest);
            ConcatAssoc(before, Rendered(fullMap), [line]);
          }
        }
        continue;
      }
      ConcatAssoc(newLines, [line], rest);
      newLines := newLines + [line];
    }
    assert newLines + [] == newLines;
  }

  /** Lines before the first header are copied verbatim and in order. */
  lemma {:induction false} RewriteSkipsPrefix(pre: seq<string>, rest: seq<string>, rows: seq<seq<int>>)
    requires NoHeader(pre)
    ensures Rewrite(pre + rest, false, rows) == pre + Rewrite(rest, false, rows)
  {
    if pre != [] {
      assert (pre + rest)[0] == pre[0];
      assert (pre + rest)[1..] == pre[1..] + rest;
      RewriteSkipsPrefix(pre[1..], rest, rows);
      ConcatAssoc([pre[0]], pre[1..], Rewrite(rest, false, rows));
      assert [pre[0]] + pre[1..] == pre;
    } else {
      assert pre + rest == rest;
    }
  }

  /** The old block's lines are dropped. */
  lemma {:induction false} RewriteDropsBlock(block: seq<string>, rest: seq<string>, rows: seq<seq<int>>)
    requires InBlock(block)
    ensures Rewrite(block + rest, true, rows) == Rewrite(rest, true, rows)
  {
    if block != [] {
      assert (block + rest)[0] == block[0];
      assert (block + rest)[1..] == block[1..] + rest;
      RewriteDropsBlock(block[1..], rest, rows);
    } else {
      assert block + rest == rest;
    }
  }

  /** A file without a header line is written back unchanged. */
  lemma RewriteVerbatim(lines: seq<string>, rows: seq<seq<int>>)
    requires NoHeader(lines)
    ensures Rewrite(lines, false, rows) == lines
  {
    RewriteSkipsPrefix(lines, [], rows);
    assert lines + [] == lines;
  }

  /** For a framed file with its terminator at e: the lines before the header, the new
      header, the rows, the old terminator, then whatever the rest of the file gives. */
  lemma RewriteFramed(lines: seq<string>, h: nat, e: nat, rows: seq<seq<int>>)
    requires Framed(lines, h, e) && e < |lines|
    ensures Rewrite(lines, false, rows)
            == lines[..h] + [HeaderLine(|rows|)] + Rendered(rows) + [lines[e]]
               + Rewrite(lines[e + 1..], false, rows)
  {
    Pieces(lines, h, e);
    RewriteSkipsPrefix(lines[..h], lines[h..], rows);
    RewriteFromHeader(lines, h, e, rows);
    Regroup(lines[..h], [HeaderLine(|rows|)], Rendered(rows), [lines[e]], Rewrite(lines[e + 1..], false, rows));
  }

  /** From the header of a framed file on: the new header, the rows, the terminator, the rest. */
  lemma RewriteFromHeader(lines: seq<string>, h: nat, e: nat, rows: seq<seq<int>>)
    requires Framed(lines, h, e) && e < |lines|
    ensures Rewrite(lines[h..], false, rows)
            == [HeaderLine(|rows|)] + (Rendered(rows) + [lines[e]] + Rewrite(lines[e + 1..], false, rows))
  {
    Pieces(lines, h, e);
    assert Rewrite(lines[h..], false, rows) == [HeaderLine(|rows|)] + Rewrite(lines[e..], true, rows) by {
      RewriteDropsBlock(lines[h + 1..e], lines[e..], rows);
    }
    Pieces(lines, e, e + 1);
    assert lines[e + 1..e + 1] + lines[e + 1..] == lines[e + 1..];
    TerminatorIsNotHeader(lines[e]);
  }

  /** Regrouping a + (b + (c + d + e)) as a + b + c + d + e. */
  lemma Regroup<T>(a: seq<T>, b: seq<T>, c: seq<T>, d: seq<T>, e: seq<T>)
    ensures a + (b + (c + d + e)) == a + b + c + d + e
  {
  }

  /** With no terminator after the header, every later line is dropped and no row is written. */
  lemma RewriteUnterminated(lines: seq<string>, h: nat, rows: seq<seq<int>>)
    requires Framed(lines, h, |lines|)
    ensures Rewrite(lines, false, rows) == lines[..h] + [HeaderLine(|rows|)]
  {
    var e := |lines|;
    Pieces(lines, h, e);
    assert Rewrite(lines, false, rows) == lines[..h] + Rewrite(lines[h..], false, rows) by {
      RewriteSkipsPrefix(lines[..h], lines[h..], rows);
    }
    assert Rewrite(lines[h..], false, rows) == [HeaderLine(|rows|)] + Rewrite(lines[e..], true, rows) by {
      RewriteDropsBlock(lines[h + 1..e], lines[e..], rows);
    }
    assert Rewrite(lines[e..], true, rows) == [] by {
      assert lines[e..] == [];
    }
    assert [HeaderLine(|rows|)] + [] == [HeaderLine(|rows|)];
  }

  // ---------------------------------------------------------------- reading a written file back

  /** The cells of a row, written out, are tokens. */
  lemma TokensAreWords(row: seq<int>)
    ensures AllWords(Tokens(row))
  {
    forall k | 0 <= k < |row|
      ensures IsWord(Tokens(row)[k])
    {
      IntToStringWord(row[k]);
    }
  }

  /** A line whose stripped form starts with a digit or '-' is neither header, terminator
      nor blank. */
  lemma NumericLine(s: string)
    requires Strip(s) != [] && (Strip(s)[0] == '-' || IsDigit(Strip(s)[0]))
    ensures !IsCfgHeader(s) && !IsTerminator(s) && !IsBlank(s)
  {
    var t := Strip(s);
    assert |t| >= 3 ==> t[..3][0] == t[0];
    assert |t| >= 1 ==> t[..1][0] == t[0];
  }

  /** A written non-empty row strips to its joined cells, which start with a digit or '-'. */
  lemma RenderRowStrip(row: seq<int>)
    requires row != []
    ensures Strip(RenderRow(row)) == Join(Tokens(row))
    ensures Join(Tokens(row)) != []
    ensures Join(Tokens(row))[0] == '-' || IsDigit(Join(Tokens(row))[0])
  {
    var ts := Tokens(row);
    TokensAreWords(row);
    JoinEnds(ts);
    JoinFirst(ts);
    StripPadded("     ", Join(ts), "\n");
    assert ts[0] == IntToString(row[0]);
  }

  /** A written row splits back into its cells' strings. */
  lemma RenderRowSplit(row: seq<int>)
    ensures Split(RenderRow(row)) == Tokens(row)
  {
    var ts := Tokens(row);
    TokensAreWords(row);
    assert RenderRow(row) == "     " + (Join(ts) + "\n");
    SplitSkipsSpace("     ", Join(ts) + "\n");
    SplitJoinThen(ts, "\n");
  }

  /** The cells' strings parse back to the row. */
  lemma ParseTokens(row: seq<int>)
    ensures ParseRow(Tokens(row)) == Some(row)
  {
    var ts := Tokens(row);
    ParseRowTokens(ts);
    forall k | 0 <= k < |ts|
      ensures ParseInt(ts[k]) == Some(row[k])
    {
      ParseIntToString(row[k]);
    }
    assert ParseRow(ts).value == row;
  }

  /** A written row, for a non-empty row, is neither header, terminator nor blank, and
      splits and parses back to the row. */
  lemma RenderRowReads(row: seq<int>)
    requires row != []
    ensures !IsCfgHeader(RenderRow(row)) && !IsTerminator(RenderRow(row)) && !IsBlank(RenderRow(row))
    ensures ParseRow(Split(RenderRow(row))) == Some(row)
  {
    RenderRowStrip(row);
    NumericLine(RenderRow(row));
    RenderRowSplit(row);
    ParseTokens(row);
  }

  /** "   CFG  d\n" is a header for full_map.py, for any token d. */
  lemma HeaderLineIsHeader(d: string)
    requires IsWord(d)
    ensures IsCfgHeader("   CFG  " + d + "\n")
  {
    var x := "CFG  " + d;
    assert Strip("   CFG  " + d + "\n") == x by {
      assert "   CFG  " + d + "\n" == "   " + x + "\n";
      StripPadded("   ", x, "\n");
    }
    assert x[..3] == "CFG";
  }

  /** "   CFG  d\n" splits into "CFG" and d, for any token d. */
  lemma HeaderLineSplit(d: string)
    requires IsWord(d)
    ensures Split("   CFG  " + d + "\n") == ["CFG", d]
  {
    var t3 := d + "\n";
    var t2 := "  " + t3;
    var t1 := "CFG" + t2;
    assert Split(t3) == [d] by {
      SplitJoinThen([d], "\n");
    }
    assert Split(t2) == [d] by {
      SplitSkipsSpace("  ", t3);
    }
    assert Split(t1) == ["CFG", d] by {
      SplitWordThen("CFG", t2);
    }
    assert Split("   " + t1) == ["CFG", d] by {
      SplitSkipsSpace("   ", t1);
    }
    assert "   CFG  " + d + "\n" == "   " + t1;
  }

  /** The new header line is a header whose second token reads back as n. */
  lemma HeaderLineReads(n: int)
    ensures IsCfgHeader(HeaderLine(n))
    ensures |Split(HeaderLine(n))| >= 2 && ParseInt(Split(HeaderLine(n))[1]) == Some(n)
  {
    IntToStringWord(n);
    HeaderLineIsHeader(IntToString(n));
    HeaderLineSplit(IntToString(n));
    ParseIntToString(n);
  }

  /** The written rows, all non-empty, are a clean block that parses back to the rows. */
  lemma RenderedReads(rows: seq<seq<int>>)
    requires forall k :: 0 <= k < |rows| ==> rows[k] != []
    ensures InBlock(Rendered(rows))
    ensures ParseRows(Rendered(rows)) == Some(rows)
  {
    var block := Rendered(rows);
    forall k | 0 <= k < |rows|
      ensures !IsCfgHeader(block[k]) && !IsTerminator(block[k])
      ensures !IsBlank(block[k]) && ParseRow(Split(block[k])) == Some(rows[k])
    {
      RenderRowReads(rows[k]);
    }
    ParsesAs(block, rows);
  }

  /** A block of non-blank lines whose k-th line parses as rows[k] parses as rows. */
  lemma {:induction false} ParsesAs(block: seq<string>, rows: seq<seq<int>>)
    requires |block| == |rows|
    requires forall k :: 0 <= k < |block| ==> !IsBlank(block[k]) && ParseRow(Split(block[k])) == Some(rows[k])
    ensures ParseRows(block) == Some(rows)
  {
    if block != [] {
      ParsesAs(block[1..], rows[1..]);
      assert [rows[0]] + rows[1..] == rows;
    }
  }

  /** Reading back a written framed file: the pin is the full map's row count and the
      eighth map is the full map itself. */
  lemma ReadWritten(lines: seq<string>, h: nat, e: nat, rows: seq<seq<int>>)
    requires Framed(lines, h, e) && e < |lines|
    requires forall k :: 0 <= k < |rows| ==> rows[k] != []
    ensures Scan(Rewrite(lines, false, rows), false, None) == Ok(Loaded(Some(|rows|), rows))
  {
    RewriteFramed(lines, h, e, rows);
    TerminatorIsNotHeader(lines[e]);
    RenderedReads(rows);
    HeaderLineReads(|rows|);
    ReadSpliced(lines[..h], HeaderLine(|rows|), Rendered(rows), lines[e],
                Rewrite(lines[e + 1..], false, rows), |rows|, rows);
  }

  /** A file made of header-free lines, a header whose second token reads as pin, a block
      that parses as rows, a terminator and anything after it reads as (pin, rows). */
  lemma ReadSpliced(pre: seq<string>, header: string, block: seq<string>, term: string,
                    rest: seq<string>, pin: int, rows: seq<seq<int>>)
    requires NoHeader(pre) && IsCfgHeader(header) && InBlock(block) && IsTerminator(term)
    requires |Split(header)| >= 2 && ParseInt(Split(header)[1]) == Some(pin)
    requires ParseRows(block) == Some(rows)
    ensures Scan(pre + [header] + block + [term] + rest, false, None) == Ok(Loaded(Some(pin), rows))
  {
    ScanSpliced(pre, header, block, term, rest);
  }

  /** A header whose second token reads as n sets the pin to n and opens the block. */
  lemma ScanAtHeader(line: string, more: seq<string>, inCfg: bool, pin: Option<int>, n: int)
    requires IsCfgHeader(line) && |Split(line)| >= 2 && ParseInt(Split(line)[1]) == Some(n)
    ensures Scan([line] + more, inCfg, pin) == Scan(more, true, Some(n))
  {
    assert ([line] + more)[0] == line && ([line] + more)[1..] == more;
  }

  /** Inside the block a terminator ends the scan with the pin read so far. */
  lemma ScanAtTerminator(term: string, rest: seq<string>, pin: Option<int>)
    requires IsTerminator(term)
    ensures Scan([term] + rest, true, pin) == Ok(Loaded(pin, []))
  {
    TerminatorIsNotHeader(term);
    assert ([term] + rest)[0] == term;
  }

  /** A second header inside the block does not end it: the header test comes first, so
      the first header and block are read as usual, the later header's size replaces the
      pin, and the rows of both blocks accumulate. */
  lemma ReadRepeatedHeader(h1: string, b1: seq<string>, h2: string, b2: seq<string>,
                           term: string, rest: seq<string>)
    requires IsCfgHeader(h1) && IsCfgHeader(h2) && InBlock(b1) && InBlock(b2) && IsTerminator(term)
    ensures Scan([h1] + (b1 + ([h2] + (b2 + ([term] + rest)))), false, None)
            == match ReadOf(h1, b1)
               case Raised(e) => Raised(e)
               case Ok(first) => Prefixed(first.eighth, ReadOf(h2, b2))
    ensures ReadOf(h1, b1).Ok? && ReadOf(h2, b2).Ok? ==>
            Scan([h1] + (b1 + ([h2] + (b2 + ([term] + rest)))), false, None)
            == Ok(Loaded(ReadOf(h2, b2).value.centerPin, ReadOf(h1, b1).value.eighth + ReadOf(h2, b2).value.eighth))
  {
    var last := [term] + rest;
    var second := [h2] + (b2 + last);
    assert ([h1] + (b1 + second))[0] == h1 && ([h1] + (b1 + second))[1..] == b1 + second;
    var p1 := Split(h1);
    if |p1| >= 2 && ParseInt(p1[1]).Some? {
      var n1 := ParseInt(p1[1]).value;
      ScanAtHeader(h1, b1 + second, false, None, n1);
      ScanBlock(b1, second, Some(n1));
      if ParseRows(b1).Some? {
        assert second[0] == h2 && second[1..] == b2 + last;
        var p2 := Split(h2);
        if |p2| >= 2 && ParseInt(p2[1]).Some? {
          var n2 := ParseInt(p2[1]).value;
          ScanAtHeader(h2, b2 + last, true, Some(n1), n2);
          ScanBlock(b2, last, Some(n2));
          ScanAtTerminator(term, rest, Some(n2));
          if ParseRows(b2).Some? {
            assert ParseRows(b2).value + [] == ParseRows(b2).value;
          }
        }
      }
    }
  }

  /** Header-free lines, a header, a clean block, a terminator and anything after it read
      as the header and the block alone. */
  lemma ScanSpliced(pre: seq<string>, header: string, block: seq<string>, term: string, rest: seq<string>)
    requires NoHeader(pre) && IsCfgHeader(header) && InBlock(block) && IsTerminator(term)
    ensures Scan(pre + [header] + block + [term] + rest, false, None) == ReadOf(header, block)
  {
    var out := pre + [header] + block + [term] + rest;
    var h := |pre|;
    var f := |pre| + 1 + |block|;
    Layout(pre, header, block, term, rest);
    assert out[h + 1..f] == block by {
      assert out[|pre| + 1..|pre| + 1 + |block|] == block;
    }
    assert out[..h] == pre && out[h] == header && out[f] == term;
    assert Framed(out, h, f);
    ReadFramed(out, h, f);
  }

  /** Where the pieces of a + [x] + b + [y] + c sit. */
  lemma Layout<T>(a: seq<T>, x: T, b: seq<T>, y: T, c: seq<T>)
    ensures |a| + 1 + |b| < |a + [x] + b + [y] + c|
    ensures (a + [x] + b + [y] + c)[..|a|] == a
    ensures (a + [x] + b + [y] + c)[|a|] == x
    ensures (a + [x] + b + [y] + c)[|a| + 1..|a| + 1 + |b|] == b
    ensures (a + [x] + b + [y] + c)[|a| + 1 + |b|] == y
  {
  }
}
