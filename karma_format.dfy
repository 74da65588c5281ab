/** Line classes of a KARMA input file's "CFG ... %" block, shared by the scripts. */
module KarmaFormat {
  import opened Text

  /** The header test of read_karma_cfg.py and read_karma_cfg_swap_pin.py: 'CFG' in line. */
  predicate HasCfg(line: string) {
    Contains(line, "CFG")
  }

  /** The header test of full_map.py: line.strip().startswith("CFG"). */
  predicate IsCfgHeader(line: string) {
    StartsWith(Strip(line), "CFG")
  }

  /** The block terminator: line.strip().startswith('%'). */
  predicate IsTerminator(line: string) {
    StartsWith(Strip(line), "%")
  }

  /** A line with nothing but whitespace: `not line.strip()`. */
  predicate IsBlank(line: string) {
    Strip(line) == ""
  }

  /** The header's size token, `[parts[1]]` when the header splits into at least two tokens. */
  function SizeToken(line: string): (r: seq<string>)
    ensures |r| <= 1
    ensures r == [] <==> |Split(line)| < 2
  {
    var parts := Split(line);
    if |parts| > 1 then [parts[1]] else []
  }

  /** What one line inside the block contributes: its stripped form, unless it is blank. */
  function Kept(line: string): (r: seq<string>)
    ensures |r| <= 1
  {
    if IsBlank(line) then [] else [Strip(line)]
  }

  /** The stripped non-blank lines of a block, in order. */
  function StrippedLines(block: seq<string>): (r: seq<string>)
    ensures |r| <= |block|
  {
    if block == [] then [] else Kept(block[0]) + StrippedLines(block[1..])
  }

  /** A terminator line is never taken for a header by full_map.py's test. */
  lemma TerminatorIsNotHeader(line: string)
    requires IsTerminator(line)
    ensures !IsCfgHeader(line)
  {
    assert Strip(line)[..1] == "%";
  }
}
