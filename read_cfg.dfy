/** The CFG-collecting loop of `read_cfg` (read_karma_cfg.py): after the first line
    holding 'CFG', the header's size token and every stripped non-blank line are
    collected up to the first line starting with '%'. A later line holding 'CFG'
    contributes its size token again. */
module ReadCfg {
  import opened Text
  import opened KarmaFormat

  /** What the loop appends from this point on, given whether a header has been seen. */
  function Collect(lines: seq<string>, inCfg: bool): (r: seq<string>)
    ensures |r| <= |lines|
    decreases |lines|
  {
    if lines == [] then []
    else if HasCfg(lines[0]) then SizeToken(lines[0]) + Collect(lines[1..], true)
    else if inCfg && IsTerminator(lines[0]) then []
    else if inCfg && !IsBlank(lines[0]) then [Strip(lines[0])] + Collect(lines[1..], true)
    else Collect(lines[1..], inCfg)
  }

  /** read_cfg without the file read and the console preview. */
  method ReadCfg(lines: seq<string>) returns (cfgLines: seq<string>)
    ensures cfgLines == Collect(lines, false)
  {
    cfgLines := [];
    var inCfg := false;
    var i := 0;
    while i < |lines|
      invariant 0 <= i <= |lines|
      invariant cfgLines + Collect(lines[i..], inCfg) == Collect(lines, false)
    {
      var line := lines[i];
      ghost var rest := lines[i + 1..];
      assert lines[i..] == [line] + rest;
      CollectStep(line, rest, inCfg);
      if HasCfg(line) {
        var parts := Split(line);
        ConcatAssoc(cfgLines, SizeToken(line), Collect(rest, true));
        if |parts| > 1 {
          cfgLines := cfgLines + [parts[1]];
        } else {
          assert cfgLines + [] == cfgLines;
        }
        inCfg := true;
        i := i + 1;
        continue;
      }
      if inCfg {
        if IsTerminator(line) {
          assert cfgLines + [] == cfgLines;
          break;
        }
        if !IsBlank(line) {
          ConcatAssoc(cfgLines, [Strip(line)], Collect(rest, true));
          cfgLines := cfgLines + [Strip(line)];
        }
      }
      i := i + 1;
    }
  }

  /** One line of the loop: a header contributes its size token and opens the block, the
      terminator inside the block ends it, any other non-blank line inside is kept. */
  lemma CollectStep(line: string, rest: seq<string>, inCfg: bool)
    ensures HasCfg(line) ==> Collect([line] + rest, inCfg) == SizeToken(line) + Collect(rest, true)
    ensures !HasCfg(line) && inCfg && IsTerminator(line) ==> Collect([line] + rest, inCfg) == []
    ensures !HasCfg(line) && inCfg && !IsTerminator(line) && !IsBlank(line) ==>
              Collect([line] + rest, inCfg) == [Strip(line)] + Collect(rest, true)
    ensures !HasCfg(line) && !(inCfg && !IsBlank(line)) && !(inCfg && IsTerminator(line)) ==>
              Collect([line] + rest, inCfg) == Collect(rest, inCfg)
  {
    assert ([line] + rest)[0] == line && ([line] + rest)[1..] == rest;
  }

  /** Lines before the first header contribute nothing. */
  lemma {:induction false} CollectSkipsPrefix(pre: seq<string>, rest: seq<string>)
    requires forall k :: 0 <= k < |pre| ==> !HasCfg(pre[k])
    ensures Collect(pre + rest, false) == Collect(rest, false)
  {
    if pre != [] {
      assert (pre + rest)[1..] == pre[1..] + rest;
      CollectSkipsPrefix(pre[1..], rest);
    } else {
      assert pre + rest == rest;
    }
  }

  /** Inside the block, the lines before the terminator contribute their stripped non-blank forms. */
  lemma {:induction false} CollectBlock(block: seq<string>, rest: seq<string>)
    requires forall k :: 0 <= k < |block| ==> !HasCfg(block[k]) && !IsTerminator(block[k])
    ensures Collect(block + rest, true) == StrippedLines(block) + Collect(rest, true)
  {
    if block != [] {
      assert (block + rest)[0] == block[0];
      assert (block + rest)[1..] == block[1..] + rest;
      CollectBlock(block[1..], rest);
    } else {
      assert block + rest == rest;
    }
  }

  /** With no line holding 'CFG' the result is empty. */
  lemma NoHeaderCollectsNothing(lines: seq<string>)
    requires forall k :: 0 <= k < |lines| ==> !HasCfg(lines[k])
    ensures Collect(lines, false) == []
  {
    CollectSkipsPrefix(lines, []);
    assert lines + [] == lines;
  }

  /** A file `pre + [header] + block + rest`, where rest is empty or starts with the
      terminator: the result is the header's size token and the block's stripped
      non-blank lines; nothing before the header or from the terminator on appears. */
  lemma {:induction false} CollectSection(pre: seq<string>, header: string, block: seq<string>, rest: seq<string>)
    requires forall k :: 0 <= k < |pre| ==> !HasCfg(pre[k])
    requires HasCfg(header)
    requires forall k :: 0 <= k < |block| ==> !HasCfg(block[k]) && !IsTerminator(block[k])
    requires rest == [] || (IsTerminator(rest[0]) && !HasCfg(rest[0]))
    ensures Collect(pre + [header] + block + rest, false) == SizeToken(header) + StrippedLines(block)
  {
    var x := [header] + block + rest;
    assert Collect(pre + [header] + block + rest, false) == Collect(x, false) by {
      assert pre + [header] + block + rest == pre + x;
      CollectSkipsPrefix(pre, x);
    }
    assert Collect(x, false) == SizeToken(header) + StrippedLines(block) by {
      CollectHeaderBlock(header, block, rest, false);
      assert Collect(rest, true) == [];
    }
  }

  /** A header line followed by a clean block: its size token, then the block's lines. */
  lemma CollectHeaderBlock(header: string, block: seq<string>, rest: seq<string>, inCfg: bool)
    requires HasCfg(header)
    requires forall k :: 0 <= k < |block| ==> !HasCfg(block[k]) && !IsTerminator(block[k])
    ensures Collect([header] + block + rest, inCfg)
            == SizeToken(header) + StrippedLines(block) + Collect(rest, true)
  {
    var x := [header] + block + rest;
    assert x[0] == header && x[1..] == block + rest;
    CollectBlock(block, rest);
  }

  /** The header test is a substring test, so a second line holding 'CFG' inside the
      block does not end it: that line's size token is collected too, then the lines
      after it, up to the terminator. */
  lemma CollectRepeatedHeader(h1: string, b1: seq<string>, h2: string, b2: seq<string>, rest: seq<string>)
    requires HasCfg(h1) && HasCfg(h2)
    requires forall k :: 0 <= k < |b1| ==> !HasCfg(b1[k]) && !IsTerminator(b1[k])
    requires forall k :: 0 <= k < |b2| ==> !HasCfg(b2[k]) && !IsTerminator(b2[k])
    requires rest == [] || (IsTerminator(rest[0]) && !HasCfg(rest[0]))
    ensures Collect([h1] + b1 + ([h2] + b2 + rest), false)
            == SizeToken(h1) + StrippedLines(b1) + (SizeToken(h2) + StrippedLines(b2))
  {
    assert Collect([h2] + b2 + rest, true) == SizeToken(h2) + StrippedLines(b2) by {
      CollectHeaderBlock(h2, b2, rest, true);
      assert Collect(rest, true) == [];
    }
    CollectHeaderBlock(h1, b1, [h2] + b2 + rest, false);
  }
}
