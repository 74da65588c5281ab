# KARMA core-map scripts, modelled in Dafny

This project models the core of three Python scripts that work on KARMA reactor input
files.

- **`full_map.py`** reads a centre pin and a ragged one-eighth core map from the
  `CFG ... %` block of `KARMA.IN`. It can redraw every cell of the map from
  `ALLOWED_TYPES`. It expands the map into a full square core map. It writes a copy of
  the input file in which that block holds the full map.
- **`read_karma_cfg_swap_pin.py`** extracts the same block and finds the last `4` and
  every `1` among its grid tokens. It swaps that `4` with a chosen `1` and splices the
  new block into a copy of the file, named with the next free `KARMA_nnnnn.IN`.
- **`read_karma_cfg.py`** collects the lines of the block.

The model follows the scripts' own structure.

- `FullMap.ExpandEighthToFull` allocates an `array2<int>` and runs the four passes of
  `expand_eighth_to_full` as four methods with nested loops:
  1. placement into the south-east quadrant;
  2. the diagonal pass over the first `n_rows` offsets;
  3. the left-right mirror;
  4. the top-bottom mirror.

  Each pass states how it changes the array. The function `Cell` gives the value every
  cell ends up with, and the lemmas state the size, centre, border and symmetry
  properties of `Cell`.
- The line scanners are methods with the scripts' flags and loops:
  - `read_karma_cfg`, `write_full_karma_in`, `extract_cfg_section`, the loop of
    `read_cfg`;
  - `find_positions`, `swap_positions`, `get_next_filename`, `write_karma_file`.

  Each method is proved equal to a function of its inputs:
  - the four flag-driven line loops equal functions that recurse over the remaining
    lines (`Collect`, `Scan`, `Rewrite`, `ExtractFrom`);
  - `find_positions` equals `Matches`, which recurses over the grid rows;
  - `get_next_filename` equals `NextNumber`, which recurses over the name list;
  - `swap_positions` equals `Swapped`, the grid with two tokens exchanged and re-joined;
  - `write_karma_file` equals `Spliced`, the concatenation of three slices.

  Lemmas then state what these functions yield on a file of the shape "lines, header,
  block, terminator, rest":
  - the reader and extractor return the block's contents;
  - the writer copies everything outside the block;
  - reading back what the writers wrote returns the new block;
  - `read_cfg` and `extract_cfg_section` agree on every input.
- Python's string operations are written out in module `Text`: `strip()`, `split()`,
  `' '.join`, `startswith`, `in`, `replace(x, "")`, `int()`, `str(int)` and `{:05d}`.
  Exceptions become results: `Raised(IndexError)` and `Raised(ValueError)`.
- Random draws, the `random.choice` index and the `glob` result are parameters.

The model follows what the code does. In these places that differs from what one might
expect of a symmetric core map:

- **The centre pin is overwritten.** Eighth-map cell `[0][0]` is placed on the centre
  after the pin. The pin survives only when row 0 is empty, so `[[2]]` with pin 9 gives
  `[[0,0,0],[0,2,0],[0,0,0]]` (`FullMap.ExampleSingleCell`, `FullMap.CentreCell`).
- **The diagonal pass copies the lower cell into the upper one.** It sets
  `(c+i, c+j) := (c+j, c+i)`. The grid is diagonal-symmetric only within the first
  `n_rows` offsets (`FullMap.DiagonalAsymmetricOnRaggedMap`).
- **The outer ring is always zero.** Placement never reaches row S-1 or column S-1, and
  the mirrors copy those zeros into row 0 and column 0 (`FullMap.BorderIsZero`).
- **`read_karma_cfg` tests for a header before anything else.** A header inside the
  block replaces the pin and the rows keep accumulating (`FullMapCfg.ReadRepeatedHeader`).
- **`write_full_karma_in` never breaks.** A later header opens another block.
- **`write_karma_file` with `cfg_end = None`** (no terminator) writes `lines[None:]`, the
  whole original file, after the new block.

## Model

| member | source | states |
|---|---|---|
| KarmaFormat.SizeToken | read_karma_cfg.py:18-20 | the header contributes at most one token, and none exactly when it splits into fewer than two tokens |
| KarmaFormat.Kept | read_karma_cfg.py:26-27 | a block line contributes at most one entry, its stripped form |
| KarmaFormat.StrippedLines | read_karma_cfg.py:23-27 | a block yields at most one entry per line |
| KarmaFormat.HasCfg | read_karma_cfg_swap_pin.py:18 | the header test of `extract_cfg_section` and of `read_cfg` (read_karma_cfg.py:16): the line contains "CFG" anywhere |
| KarmaFormat.IsCfgHeader | full_map.py:30 | the header test of `read_karma_cfg` and `write_full_karma_in` (line 116): the stripped line starts with "CFG" |
| KarmaFormat.IsTerminator | full_map.py:37 | the block terminator of every script: the stripped line starts with '%' |
| KarmaFormat.IsBlank | full_map.py:39 | `not line.strip()`: the line holds only whitespace |
| KarmaFormat.TerminatorIsNotHeader | full_map.py:116-122 | a line whose stripped form starts with '%' is never taken for a `CFG` header |
| ReadCfg.ReadCfg | read_karma_cfg.py:12-29 | the loop's list equals `Collect` of the lines, the recursive statement of the flag-driven scan |
| ReadCfg.Collect | read_karma_cfg.py:12-29 | what the loop appends from a given line on, given whether a header has been seen: a line holding 'CFG' adds its size token and opens the block, a '%' line inside the block ends it, other non-blank block lines add their stripped form; each line adds at most one entry, so the result is no longer than the lines. Its behaviour on whole files is stated by `ReadCfg.CollectSection`, `ReadCfg.CollectRepeatedHeader` and `ReadCfg.NoHeaderCollectsNothing` |
| ReadCfg.CollectSkipsPrefix | read_karma_cfg.py:15-23 | lines before the first line holding 'CFG' contribute nothing |
| ReadCfg.CollectBlock | read_karma_cfg.py:23-27 | inside the block, lines with no 'CFG' and no '%' contribute exactly their stripped non-blank forms, in order |
| ReadCfg.NoHeaderCollectsNothing | read_karma_cfg.py:12-29 | with no line holding 'CFG' the result is empty |
| ReadCfg.CollectSection | read_karma_cfg.py:15-27 | for `pre + [header] + block + rest`, with rest empty or starting with the terminator, the result is the header's size token then the block's stripped non-blank lines; nothing before the header, no blank line, and nothing from the terminator on appears |
| ReadCfg.CollectHeaderBlock | read_karma_cfg.py:16-27 | a header followed by a clean block yields its size token, the block's lines, then what follows inside the block |
| ReadCfg.CollectRepeatedHeader | read_karma_cfg.py:16-22 | a second line holding 'CFG' inside the block does not end it: its size token and its block are appended too |
| FullMap.MaxRowLength | full_map.py:59 | the result bounds every row length and is the length of some row |
| FullMap.Radius | full_map.py:58-63 | the radius is at least the row count and every row length, and equals one of them |
| FullMap.Side | full_map.py:61-62 | `full_size = 2 * radius + 1`; its bounds are stated by `FullMap.SideOfExpandedMap` |
| FullMap.Cell | full_map.py:65-88 | the value cell (x, y) holds after the four passes: the south-east quadrant as placed and diagonally copied, folded by the two mirrors; `FullMap.ExpandEighthToFull` proves the array equals it |
| FullMap.FullRows | full_map.py:57-90 | the expanded map as rows: Side(eighth) rows of Side(eighth) cells |
| FullMap.PlaceEighth | full_map.py:70-73 | writes `eighth[i][j]` at `(c+i, c+j)` for every cell of the eighth map; every other cell keeps its value |
| FullMap.DiagonalPass | full_map.py:75-79 | for `c <= x < y < c + n_rows`, cell `(x, y)` takes the old value at `(y, x)`; every other cell keeps its value |
| FullMap.MirrorLeftRight | full_map.py:81-84 | every cell in a column `y < c` takes the old value at `(x, 2c - y)`; the other columns keep their values |
| FullMap.MirrorTopBottom | full_map.py:86-88 | every row `x < c` takes the old row `2c - x`; the other rows keep their values |
| FullMap.ExpandEighthToFull | full_map.py:57-90 | returns a fresh square array of side Side(eighth) whose every cell is `Cell(eighth, center_pin, x, y)` |
| FullMap.SideOfExpandedMap | full_map.py:58-65 | the side is odd, at least `2 * n_rows + 1` and `2 * len(row) + 1` for every row, and equal to one of these |
| FullMap.CentreCell | full_map.py:67-73 | the centre holds `eighth_map[0][0]` when row 0 is non-empty, otherwise the centre pin |
| FullMap.MirrorSymmetric | full_map.py:81-88 | the map is left-right and top-bottom symmetric at every cell |
| FullMap.BorderIsZero | full_map.py:61-88 | row 0, row S-1, column 0 and column S-1 are all zero |
| FullMap.SouthEastQuadrant | full_map.py:70-88 | the south-east quadrant keeps its post-diagonal values: at offsets `a < b < n_rows` the value placed at `(b, a)`, elsewhere the value placed at `(a, b)` |
| FullMap.DiagonalSymmetricWithinRows | full_map.py:75-79 | the map is diagonal-symmetric where both offsets from the centre are below `n_rows` |
| FullMap.DiagonalAsymmetricOnRaggedMap | full_map.py:75-79 | for `[[1, 2]]` the map is not diagonal-symmetric: cell `(2, 3)` holds 2 and cell `(3, 2)` holds 0 |
| FullMap.ExpandedValues | full_map.py:47-73 | when the eighth map holds only ALLOWED_TYPES, every cell of the full map is an allowed type, zero, or the centre pin |
| FullMap.ExampleSingleCell | full_map.py:57-90 | `[[2]]` with pin 9 expands to `[[0,0,0],[0,2,0],[0,0,0]]` |
| FullMap.ExampleTwoRows | full_map.py:57-90 | `[[1,4],[5]]` with pin 7 expands to the 5x5 map whose ring of 5s comes from cell (1, 0); the 4 is lost |
| FullMapCfg.ParseRow | full_map.py:40 | `[int(x) for x in line.split()]` as an Option: when it succeeds the row has one value per token; `FullMapCfg.ParseRowTokens` states that it succeeds exactly when every token parses and gives their values in order, and `FullMapCfg.ParseTokens` that it reads back a rendered row |
| FullMapCfg.ParseRowTokens | full_map.py:40 | `[int(x) for x in tokens]` succeeds exactly when every token parses, and then holds their values in order |
| FullMapCfg.Scan | full_map.py:29-42 | the loop of `read_karma_cfg` from a given line on: header first (IndexError without a second token, ValueError when it does not parse), then the terminator's `break`, then parsed non-blank rows; its properties are the `Scan…` and `Read…` lemmas |
| FullMapCfg.ScanAtHeader | full_map.py:30-34 | a header whose second token reads as n sets the pin to n and opens the block, whatever state the scan was in |
| FullMapCfg.ScanAtTerminator | full_map.py:37-38 | inside the block a terminator ends the scan with the pin read so far and no further rows |
| FullMapCfg.ParseRows | full_map.py:38-40 | a block yields at most one parsed row per line, blank lines giving none |
| FullMapCfg.NumericLine | full_map.py:30-39 | a line whose stripped form starts with a digit or '-' is a row line: not a header, not a terminator, not blank |
| FullMapCfg.ReadKarmaCfg | full_map.py:29-42 | the loop's result equals `Scan`, the recursive statement of the scan, including the IndexError and ValueError paths |
| FullMapCfg.ScanSkipsPrefix | full_map.py:29-35 | lines before the first header are skipped |
| FullMapCfg.ScanBlock | full_map.py:36-40 | a block of non-header, non-terminator lines yields its parsed non-blank rows in order, or ValueError when a row does not parse |
| FullMapCfg.ReadFramed | full_map.py:29-42 | for a file with one header followed by its block up to a terminator or the end, the result is: IndexError when the header has no second token, ValueError when that token or a row does not parse, otherwise `(int(parts[1]), rows)` |
| FullMapCfg.NoHeaderReadsNothing | full_map.py:25-42 | with no header the result is `(None, [])` |
| FullMapCfg.ScanSpliced | full_map.py:29-42 | for `pre + [header] + block + [terminator] + rest`, the terminator ends the scan and nothing after it is read |
| FullMapCfg.RandomizeEighthMap | full_map.py:47-52 | same number of rows and the same row lengths; each cell is `ALLOWED_TYPES[draw]`, so every value is in {1, 2, 4, 5} |
| FullMapCfg.EveryMapReachable | full_map.py:50 | every map of the input's shape over {1, 2, 4, 5} is produced by some draws |
| FullMapCfg.DrawOf | full_map.py:50 | every value in {1, 2, 4, 5} is ALLOWED_TYPES at some index |
| FullMapCfg.WriteFullKarmaIn | full_map.py:115-131 | the emitted lines equal `Rewrite`, the recursive statement of the flag-driven copy |
| FullMapCfg.RewriteSkipsPrefix | full_map.py:115-131 | lines before the first header are copied verbatim and in order |
| FullMapCfg.RewriteDropsBlock | full_map.py:121-129 | old block lines are dropped |
| FullMapCfg.RewriteVerbatim | full_map.py:131 | a file with no header is copied unchanged |
| FullMapCfg.RewriteFramed | full_map.py:115-131 | output is the lines before the header, `"   CFG  S\n"`, one rendered line per map row, the kept terminator, then the rest rewritten |
| FullMapCfg.RewriteFromHeader | full_map.py:116-131 | from the header on, the output is the new header line, the rendered rows, the kept terminator, then the rest rewritten |
| FullMapCfg.RewriteUnterminated | full_map.py:115-129 | with no terminator after the header, the output ends at the new header line: no rows are emitted and all later lines are dropped |
| FullMapCfg.Rewrite | full_map.py:115-131 | the loop of `write_full_karma_in` from a given line on: a header is replaced by the new header, block lines are dropped, the terminator gets the rendered rows in front of it, other lines are copied; its properties are the `Rewrite…` lemmas |
| FullMapCfg.HeaderLine | full_map.py:118 | the new header `"   CFG  " + str(S) + "\n"`; `FullMapCfg.HeaderLineReads` shows it reads back as S |
| FullMapCfg.RenderRow | full_map.py:124-126 | a full-map row written as five spaces, the cells' `str(int(x))` joined by single spaces, and a newline; `FullMapCfg.RenderRowReads` shows it reads back as the row |
| FullMapCfg.TokensAreWords | full_map.py:125 | `str(int(x))` of every cell is a non-empty run of non-whitespace |
| FullMapCfg.RenderRowSplit | full_map.py:124-126 | splitting a rendered row gives back the cell strings |
| FullMapCfg.RenderRowStrip | full_map.py:124-125 | a rendered non-empty row strips to the single-space join of its cells, which starts with a digit or '-' |
| FullMapCfg.ParseTokens | full_map.py:125 | parsing the cell strings gives back the row |
| FullMapCfg.RenderRowReads | full_map.py:124-126 | a rendered non-empty row is neither header, terminator nor blank, and reads back as the same row |
| FullMapCfg.HeaderLineIsHeader | full_map.py:118 | `"   CFG  " + d + "\n"` passes the header test |
| FullMapCfg.HeaderLineSplit | full_map.py:118 | `"   CFG  " + d + "\n"` splits into `["CFG", d]` |
| FullMapCfg.HeaderLineReads | full_map.py:118 | the written header passes the header test and its second token reads back as S |
| FullMapCfg.RenderedReads | full_map.py:123-126 | the rendered rows form a clean block that reads back as the rows |
| FullMapCfg.ReadWritten | full_map.py:115-131 | reading back the written file gives pin S and exactly the written rows |
| FullMapCfg.ReadSpliced | full_map.py:29-42 | a header with a parsable size, a block that parses and a terminator read as that size and those rows |
| FullMapCfg.ReadRepeatedHeader | full_map.py:29-42 | for `header1, block1, header2, block2, terminator, rest`: the first header and block raise as a one-block file would; otherwise the result is the second header and block read as a one-block file, with block1's rows in front. When both parse, the pin is the second header's size and the rows are those of both blocks: a later header replaces the pin without ending the block |
| SwapPin.ExtractCfgSection | read_karma_cfg_swap_pin.py:11-33 | `(cfg_start, cfg_end, cfg_lines)` equals `ExtractFrom`, the recursive statement of the scan |
| SwapPin.ExtractAtHeader | read_karma_cfg_swap_pin.py:18-24 | a line holding 'CFG' moves `cfg_start` to it and adds its size token |
| SwapPin.ExtractAgreesWithReadCfg | read_karma_cfg_swap_pin.py:17-31 | on every input, the list of `extract_cfg_section` equals the list of `read_cfg` |
| SwapPin.ExtractBounds | read_karma_cfg_swap_pin.py:17-33 | a set `cfg_start` is a line holding 'CFG'; a set `cfg_end` is a terminator after `cfg_start`, with no line holding 'CFG' in between |
| SwapPin.ExtractSectionBounds | read_karma_cfg_swap_pin.py:17-33 | `cfg_end > cfg_start` whenever both are set, and both are at lines of the right kind |
| SwapPin.ExtractSkips | read_karma_cfg_swap_pin.py:17-26 | lines without 'CFG' before any header change nothing |
| SwapPin.ExtractBlock | read_karma_cfg_swap_pin.py:26-31 | block lines add their stripped non-blank forms in order and leave the bounds to the lines after them |
| SwapPin.ExtractInBlock | read_karma_cfg_swap_pin.py:26-31 | one block line adds its stripped form unless it is blank |
| SwapPin.ExtractNoHeader | read_karma_cfg_swap_pin.py:13-33 | with no line holding 'CFG' the result is `(None, None, [])` |
| SwapPin.ExtractSection | read_karma_cfg_swap_pin.py:17-33 | for a file with one header at h and a block ending at a terminator e, or at the end: `cfg_start = h`, `cfg_end = e` (None at the end) and `cfg_lines` is the size token and the block's stripped non-blank lines |
| SwapPin.ExtractFromHeader | read_karma_cfg_swap_pin.py:18-31 | from the header on, the scan records it, adds its size token and the block's lines, and stops at the terminator |
| SwapPin.StartStays | read_karma_cfg_swap_pin.py:18-19 | once a header has been seen, `cfg_start` stays set |
| SwapPin.NoStartNoLines | read_karma_cfg_swap_pin.py:17-31 | when no header is found, `cfg_lines` is empty |
| SwapPin.ExtractFrom | read_karma_cfg_swap_pin.py:17-33 | the loop of `extract_cfg_section` from a given line on: a 'CFG' line moves `cfg_start` and adds its size token, and the first terminator after it sets `cfg_end` and stops; its properties are the `Extract…` lemmas |
| SwapPin.Grid | read_karma_cfg_swap_pin.py:41-42 | the token grid: an empty slot for the size line, then `line.split()` for each later line |
| SwapPin.FindPositions | read_karma_cfg_swap_pin.py:35-49 | `pos_4` is the last `"4"` and `pos_1_list` is every `"1"` of the grid in row-major order |
| SwapPin.ScanRow | read_karma_cfg_swap_pin.py:43-47 | one row's tokens update `pos_4` to the row's last "4", if any, and append the row's "1"s |
| SwapPin.Matches | read_karma_cfg_swap_pin.py:41-47 | the positions of a token in the grid rows 1 up to m, in row-major order; `SwapPin.MatchesExact` and `SwapPin.MatchesOrdered` state what it lists |
| SwapPin.RowMatchesExact | read_karma_cfg_swap_pin.py:43-47 | a position is listed for a row exactly when its token equals the searched one |
| SwapPin.MatchesExact | read_karma_cfg_swap_pin.py:41-47 | a position is listed exactly when it names a token of a row after the size line equal to the searched one; `"04"` is not a `"4"` |
| SwapPin.RowMatchesOrdered | read_karma_cfg_swap_pin.py:43-47 | a row's matches lie in that row, left to right |
| SwapPin.MatchesOrdered | read_karma_cfg_swap_pin.py:41-47 | all matches have row >= 1 and are strictly increasing in row-major order |
| SwapPin.LastFour | read_karma_cfg_swap_pin.py:44-45 | `pos_4` is None exactly when there is no "4"; otherwise it holds a "4" and every other "4" comes before it |
| SwapPin.OnesListed | read_karma_cfg_swap_pin.py:46-47 | `pos_1_list` lists every "1" and only "1"s, in increasing order |
| SwapPin.SwapCells | read_karma_cfg_swap_pin.py:63-65 | the swapped grid keeps the row count and every row's token count |
| SwapPin.SwapCellsAt | read_karma_cfg_swap_pin.py:63-65 | the two tokens are exchanged; row 0 and every other token are unchanged |
| SwapPin.SwapCellsTwice | read_karma_cfg_swap_pin.py:63-65 | swapping the same pair twice restores the grid |
| SwapPin.SwapCellsSelf | read_karma_cfg_swap_pin.py:63-65 | swapping a position with itself changes nothing |
| SwapPin.Swapped | read_karma_cfg_swap_pin.py:51-72 | the result has as many lines as `cfg_data` |
| SwapPin.SwapPositions | read_karma_cfg_swap_pin.py:51-72 | the result equals `Swapped`: line 0 kept, then every token row re-joined with single spaces |
| SwapPin.GridWords | read_karma_cfg_swap_pin.py:59-60 | every grid token is a non-empty run of non-whitespace |
| SwapPin.GridOfSwapped | read_karma_cfg_swap_pin.py:66-72 | line 0 is unchanged, and splitting the re-joined lines gives exactly the swapped token grid |
| SwapPin.SwapInvolution | read_karma_cfg_swap_pin.py:51-72 | `swap_positions` twice with the same pair restores line 0 and every token; swapping a position with itself changes no token |
| SwapPin.SwapCellsKeepsTokens | read_karma_cfg_swap_pin.py:63-65 | the multiset of grid tokens is unchanged |
| SwapPin.MainSwap | read_karma_cfg_swap_pin.py:135-154 | after the swap, the former "4" cell holds "1", the chosen "1" cell holds "4", every other token is unchanged, and the token multiset is kept |
| SwapPin.MaxOf | read_karma_cfg_swap_pin.py:95 | `max(numbers)` is one of the numbers and at least every one of them |
| SwapPin.NumberPart | read_karma_cfg_swap_pin.py:86 | `f.replace("KARMA_", "").replace(".IN", "")`; `SwapPin.NumberPartOfFileName` shows it recovers a generated name's number |
| SwapPin.Numbers | read_karma_cfg_swap_pin.py:82-89 | the numbers of the names whose middle `int()` accepts, in order, skipping the ValueError ones; `SwapPin.NumbersComplete` states every such number is collected |
| SwapPin.NextNumber | read_karma_cfg_swap_pin.py:91-95 | 1 when no number was collected, otherwise `max(numbers) + 1`; `SwapPin.NextFilenameFresh` shows it exceeds every collected number |
| SwapPin.FileName | read_karma_cfg_swap_pin.py:96 | `f"KARMA_{n:05d}.IN"`; `SwapPin.FirstFileName` gives the first one |
| SwapPin.GetNextFilename | read_karma_cfg_swap_pin.py:74-96 | the name is `FileName(NextNumber(existing))`: `KARMA_00001.IN` with no parsable name, else the largest number plus one, padded to five digits |
| SwapPin.FirstFileName | read_karma_cfg_swap_pin.py:79 | `FileName(1)` is `"KARMA_00001.IN"` |
| SwapPin.NumbersComplete | read_karma_cfg_swap_pin.py:83-89 | every name whose middle parses contributes its number |
| SwapPin.NumberPartOfFileName | read_karma_cfg_swap_pin.py:86-96 | removing "KARMA_" and ".IN" from a generated name gives back the padded number |
| SwapPin.NumberPartBetween | read_karma_cfg_swap_pin.py:86 | removing "KARMA_" and ".IN" from `"KARMA_" + p + ".IN"` gives p when p holds no 'K' and no '.' |
| SwapPin.RemoveAllLeading | read_karma_cfg_swap_pin.py:86 | `replace(pat, "")` removes a leading occurrence of pat |
| SwapPin.NextFilenameFresh | read_karma_cfg_swap_pin.py:94-96 | the new name reads back as the next number, which exceeds every parsed existing number, so the new name is not among the existing ones |
| SwapPin.WriteKarmaFile | read_karma_cfg_swap_pin.py:98-115 | the lines written are `Spliced(...)` and the name is the next free file name |
| SwapPin.Indented | read_karma_cfg_swap_pin.py:104 | a new entry written as five spaces, the entry and a newline; `SwapPin.IndentedRow` shows it strips back to the entry |
| SwapPin.Spliced | read_karma_cfg_swap_pin.py:100-107 | `lines[:cfg_start+1]`, the indented entries, then `lines[cfg_end:]`, with Python's slice clamping and `lines[None:]`; `SwapPin.SplicedLayout` states where each part lands |
| SwapPin.SplicedLayout | read_karma_cfg_swap_pin.py:100-107 | output is `lines[:cfg_start+1]`, then `"     " + x + "\n"` per new entry, then `lines[cfg_end:]`; its length is the sum of the three parts |
| SwapPin.IndentedRow | read_karma_cfg_swap_pin.py:104 | an indented clean row strips back to itself and is neither header, terminator nor blank |
| SwapPin.StrippedIndented | read_karma_cfg_swap_pin.py:103-104 | the indented block reads back as the new entries |
| SwapPin.SplicedRowsClean | read_karma_cfg_swap_pin.py:103-104 | no written block line holds 'CFG' or starts with '%' |
| SwapPin.SplicedRowsRead | read_karma_cfg_swap_pin.py:103-104 | the written block lines strip back to the new entries |
| SwapPin.SplicedOneSection | read_karma_cfg_swap_pin.py:100-107 | the written file again has one header, at the same line, followed by a clean block and a terminator |
| SwapPin.ReextractSpliced | read_karma_cfg_swap_pin.py:100-107 | extracting from the written file gives the same `cfg_start`, `cfg_end = cfg_start + 1 + len(new)`, and the old size token followed by the new entries |
| SwapPin.ReadBack | read_karma_cfg_swap_pin.py:17-33 | a file with one section whose block strips to given rows extracts as exactly those rows |
| SwapPin.RunSwap | read_karma_cfg_swap_pin.py:117-166 | `main` stops when there is no "4" or no "1"; otherwise it writes the extracted file with the swapped block under the next free name |
| Text.Strip | full_map.py:30 | the stripped string neither starts nor ends with whitespace |
| Text.IsSpace | full_map.py:30 | the characters Python's `str.strip()` and `str.split()` treat as whitespace |
| Text.StartsWith | full_map.py:30 | `s.startswith(p)` |
| Text.Contains | read_karma_cfg_swap_pin.py:18 | `p in s`: p occurs at some index of s |
| Text.Split | read_karma_cfg_swap_pin.py:42 | `str.split()`: the maximal runs of non-whitespace, in order; `Text.SplitWords` and `Text.SplitJoin` state what it yields |
| Text.Join | read_karma_cfg_swap_pin.py:70 | `' '.join(tokens)`; `Text.SplitJoin` shows splitting undoes it on words |
| Text.RemoveAll | read_karma_cfg_swap_pin.py:86 | `s.replace(pat, "")`, removing non-overlapping occurrences from left to right; the result is never longer than s |
| Text.ParseInt | full_map.py:32 | `int(s)`: surrounding whitespace, an optional sign and ASCII digits, None where Python raises ValueError; `Text.ParseIntToString` and `Text.ParsePad05` state its round trips |
| Text.StripPadded | read_karma_cfg_swap_pin.py:30-31 | stripping removes exactly the surrounding whitespace of a trimmed string |
| Text.SplitWords | read_karma_cfg_swap_pin.py:42 | `split()` yields non-empty runs of non-whitespace |
| Text.SplitSkipsSpace | read_karma_cfg_swap_pin.py:42 | leading whitespace does not change `split()` |
| Text.SplitWordThen | read_karma_cfg_swap_pin.py:42 | a word followed by whitespace or the end splits off as the first token |
| Text.SplitJoin | read_karma_cfg_swap_pin.py:70 | `' '.join` of words splits back into the same words |
| Text.SplitJoinThen | full_map.py:125 | `' '.join` of words, followed by whitespace, splits back into the same words |
| Text.JoinEnds | read_karma_cfg_swap_pin.py:70 | a join of words neither starts nor ends with whitespace |
| Text.RemoveAllAbsent | read_karma_cfg_swap_pin.py:86 | `replace(pat, "")` leaves a string without pat's first character unchanged |
| Text.RemoveAllAfterAbsent | read_karma_cfg_swap_pin.py:86 | `replace(pat, "")` passes over a prefix without pat's first character unchanged |
| Text.ParseNat | read_karma_cfg_swap_pin.py:87 | a digit string parses exactly when it is non-empty and all ASCII digits |
| Text.NatToStringValue | full_map.py:125 | the decimal digits of n denote n |
| Text.IntToString | full_map.py:125 | `str(x)` is the digits of x, with a leading '-' when x is negative |
| Text.ParseNatToString | full_map.py:125 | the digits of n parse back as n |
| Text.Pad05 | read_karma_cfg_swap_pin.py:96 | `{:05d}` is at least five characters wide |
| Text.ParsePad05 | read_karma_cfg_swap_pin.py:96 | `int()` of `{:05d}` of x gives x back, for negative x too |
| Text.ParseZeroPad | read_karma_cfg_swap_pin.py:96 | a zero-padded number parses back as itself, whatever the width |
| Text.IntToStringWord | full_map.py:125 | `str(x)` is a non-empty run of non-whitespace |
| Text.ParseIntToString | full_map.py:125 | `int(str(x)) == x` for every integer x |

## Left out

- File and directory I/O, `print` output, `read_karma_file`, `save_full_cfg`,
  `visualize_maps`, `generate_case`, `print_cfg` and `full_map.py`'s `main` are not
  modelled. Lines come in, and lines to write go out, as `seq<string>`.
- The 20-line console preview of `read_cfg` is console output and is not modelled. It
  also raises IndexError on a file shorter than 20 lines; the model does not raise there.
- The `glob` scan is replaced by the list of existing names, passed in as a parameter.
- `np.random.choice` and `random.choice` are replaced by parameters: the draws, as
  indices into ALLOWED_TYPES, and the index of the chosen "1".
- `Text.ParseInt`: models `int()` on surrounding whitespace, an optional sign and ASCII
  digits. It does not accept underscores or non-ASCII digits, which Python's `int()` also
  accepts.
- `FullMap.ExpandEighthToFull`: requires a non-empty eighth map; `max()` over an empty
  map raises ValueError in the script.
- `FullMap.ExpandEighthToFull`: takes the centre pin as an integer. A pin of `None` makes
  numpy raise when the script stores it.
- `FullMap.ExpandEighthToFull`: cells are unbounded integers; numpy's 64-bit `int` is
  not modelled.
- `FullMapCfg.RandomizeEighthMap`: requires the draws to have the map's shape and to
  index ALLOWED_TYPES; the random generator itself is not modelled.
- `FullMapCfg.WriteFullKarmaIn`: takes the full map as its rows (`seq<seq<int>>`), not
  as a numpy array, and `full_map.shape[0]` as the row count.
- `SwapPin.SwapPositions`: requires both positions to name grid tokens after the size
  line. The script raises IndexError for a row or column past the grid. For row 0 it
  raises TypeError, because the size line stays a string. `main` only passes positions
  found by `find_positions`, so neither happens there.
- `SwapPin.WriteKarmaFile`: takes `cfg_start` as a number. With `None` the script would
  raise TypeError, but `main` returns before that (`SwapPin.StartStays`,
  `SwapPin.NoStartNoLines`).
- `SwapPin.RunSwap`: requires the chosen index to lie within `pos_1_list` when that list
  is non-empty, as `random.choice` guarantees.
