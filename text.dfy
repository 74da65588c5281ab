/** The few Python `str` operations the KARMA scripts rely on, over `seq<char>`:
    whitespace stripping and splitting, prefix and substring tests, joining with
    single spaces, removal of every occurrence of a pattern, decimal parsing of
    plain digit strings and decimal formatting. */
module Text {

  datatype Option<T> = None | Some(value: T)

  /** Python's whitespace (str.isspace / the separators of a bare str.split()). */
  predicate IsSpace(c: char) {
    var n := c as int;
    (9 <= n <= 13) || (28 <= n <= 32) || n == 0x85 || n == 0xA0 || n == 0x1680 ||
    (0x2000 <= n <= 0x200A) || n == 0x2028 || n == 0x2029 || n == 0x202F ||
    n == 0x205F || n == 0x3000
  }

  predicate AllSpace(s: string) {
    forall k :: 0 <= k < |s| ==> IsSpace(s[k])
  }

  /** A token as str.split() produces it: non-empty and free of whitespace. */
  predicate IsWord(t: string) {
    t != [] && forall k :: 0 <= k < |t| ==> !IsSpace(t[k])
  }

  predicate AllWords(ts: seq<string>) {
    forall k :: 0 <= k < |ts| ==> IsWord(ts[k])
  }

  // ---------------------------------------------------------------- strip

  function StripLeft(s: string): (r: string)
    ensures r == [] || !IsSpace(r[0])
  {
    if s != [] && IsSpace(s[0]) then
      StripLeft(s[1..])
    else s
  }

  function StripRight(s: string): (r: string)
    ensures r == [] || !IsSpace(r[|r| - 1])
  {
    if s != [] && IsSpace(s[|s| - 1]) then
      StripRight(s[..|s| - 1])
    else s
  }

  /** str.strip(): drop leading and trailing whitespace. */
  function Strip(s: string): (r: string)
    ensures r == [] || (!IsSpace(r[0]) && !IsSpace(r[|r| - 1]))
  {
    StripRightPrefix(StripLeft(s));
    StripRight(StripLeft(s))
  }

  /** str.rstrip() keeps a prefix of its argument. */
  lemma {:induction false} StripRightPrefix(s: string)
    ensures |StripRight(s)| <= |s| && StripRight(s) == s[..|StripRight(s)|]
    decreases |s|
  {
    if s != [] && IsSpace(s[|s| - 1]) {
      StripRightPrefix(s[..|s| - 1]);
    }
  }

  /** Regrouping a concatenation, stated apart so that it is proved without other facts in scope. */
  lemma ConcatAssoc<T>(a: seq<T>, b: seq<T>, c: seq<T>)
    ensures a + (b + c) == (a + b) + c
  {
  }

  /** Stripping a line made of whitespace, a token-ish core and whitespace gives the core. */
  lemma {:induction false} StripPadded(w1: string, x: string, w2: string)
    requires AllSpace(w1) && AllSpace(w2)
    requires x != [] && !IsSpace(x[0]) && !IsSpace(x[|x| - 1])
    ensures Strip(w1 + x + w2) == x
  {
    StripLeftPadded(w1, x + w2);
    assert w1 + x + w2 == w1 + (x + w2);
    StripRightPadded(x, w2);
  }

  lemma {:induction false} StripLeftPadded(w: string, s: string)
    requires AllSpace(w) && (s == [] || !IsSpace(s[0]))
    ensures StripLeft(w + s) == s
  {
    if w != [] {
      assert (w + s)[1..] == w[1..] + s;
      StripLeftPadded(w[1..], s);
    } else {
      assert w + s == s;
    }
  }

  lemma {:induction false} StripRightPadded(s: string, w: string)
    requires AllSpace(w) && (s == [] || !IsSpace(s[|s| - 1]))
    ensures StripRight(s + w) == s
  {
    if w != [] {
      var v := w[..|w| - 1];
      assert (s + w)[..|s + w| - 1] == s + v;
      StripRightPadded(s, v);
    } else {
      assert s + w == s;
    }
  }

  // ---------------------------------------------------------------- prefix and substring

  /** str.startswith(p). */
  predicate StartsWith(s: string, p: string) {
    |p| <= |s| && s[..|p|] == p
  }

  /** p occurs in s at index k. */
  predicate MatchAt(s: string, p: string, k: nat) {
    k + |p| <= |s| && s[k..k + |p|] == p
  }

  /** Python's `p in s`. */
  predicate Contains(s: string, p: string) {
    exists k: nat :: k + |p| <= |s| && MatchAt(s, p, k)
  }

  /** A string that does not hold the pattern's first character does not hold the pattern. */
  lemma NotContainsWithoutFirst(s: string, p: string)
    requires p != [] && forall k :: 0 <= k < |s| ==> s[k] != p[0]
    ensures !Contains(s, p)
  {
    forall k: nat | k + |p| <= |s|
      ensures !MatchAt(s, p, k)
    {
      assert s[k..k + |p|][0] == s[k];
    }
  }

  /** Whitespace padding cannot complete a pattern whose ends are not whitespace. */
  lemma ContainsPadded(w1: string, x: string, w2: string, p: string)
    requires AllSpace(w1) && AllSpace(w2)
    requires p != [] && !IsSpace(p[0]) && !IsSpace(p[|p| - 1])
    requires Contains(w1 + x + w2, p)
    ensures Contains(x, p)
  {
    var s := w1 + x + w2;
    var k: nat :| k + |p| <= |s| && MatchAt(s, p, k);
    assert s[k] == p[0] && s[k + |p| - 1] == p[|p| - 1] by {
      assert s[k..k + |p|] == p;
    }
    assert |w1| <= k && k + |p| <= |w1| + |x|;
    var j: nat := k - |w1|;
    assert x[j..j + |p|] == s[k..k + |p|];
    assert MatchAt(x, p, j);
  }

  // ---------------------------------------------------------------- split and join

  /** Length of the leading run of non-whitespace characters. */
  function TokenLength(s: string): (n: nat)
    ensures n <= |s|
    ensures s != [] && !IsSpace(s[0]) ==> n > 0
  {
    if s == [] || IsSpace(s[0]) then 0 else 1 + TokenLength(s[1..])
  }

  /** str.split() with no argument: the maximal runs of non-whitespace, in order. */
  function Split(s: string): (ts: seq<string>)
    decreases |s|
  {
    if s == [] then []
    else if IsSpace(s[0]) then Split(s[1..])
    else
      var n := TokenLength(s);
      [s[..n]] + Split(s[n..])
  }

  lemma {:induction false} TokenLengthIsWord(s: string)
    ensures forall k :: 0 <= k < TokenLength(s) ==> !IsSpace(s[k])
    decreases |s|
  {
    if s != [] && !IsSpace(s[0]) {
      TokenLengthIsWord(s[1..]);
      forall k | 1 <= k < TokenLength(s)
        ensures !IsSpace(s[k])
      {
        assert s[k] == s[1..][k - 1];
      }
    }
  }

  /** Every token str.split() returns is a non-empty run of non-whitespace. */
  lemma {:induction false} SplitWords(s: string)
    ensures AllWords(Split(s))
    decreases |s|
  {
    if s == [] {
    } else if IsSpace(s[0]) {
      SplitWords(s[1..]);
    } else {
      var n := TokenLength(s);
      TokenLengthIsWord(s);
      SplitWords(s[n..]);
      assert IsWord(s[..n]);
    }
  }

  /** ' '.join(ts). */
  function Join(ts: seq<string>): string {
    if ts == [] then ""
    else if |ts| == 1 then ts[0]
    else ts[0] + " " + Join(ts[1..])
  }

  lemma {:induction false} SplitSkipsSpace(w: string, s: string)
    requires AllSpace(w)
    ensures Split(w + s) == Split(s)
  {
    if w != [] {
      assert (w + s)[1..] == w[1..] + s;
      SplitSkipsSpace(w[1..], s);
    } else {
      assert w + s == s;
    }
  }

  lemma {:induction false} TokenLengthOfWord(t: string, s: string)
    requires IsWord(t) && (s == [] || IsSpace(s[0]))
    ensures TokenLength(t + s) == |t|
  {
    if |t| == 1 {
      assert (t + s)[1..] == s;
    } else {
      assert (t + s)[1..] == t[1..] + s;
      TokenLengthOfWord(t[1..], s);
    }
  }

  /** A word followed by whitespace (or nothing) is split off as one token. */
  lemma SplitWordThen(t: string, s: string)
    requires IsWord(t) && (s == [] || IsSpace(s[0]))
    ensures Split(t + s) == [t] + Split(s)
  {
    TokenLengthOfWord(t, s);
    assert (t + s)[..|t|] == t;
    assert (t + s)[|t|..] == s;
  }

  /** Joining words with single spaces and splitting again gives the words back. */
  lemma {:induction false} SplitJoin(ts: seq<string>)
    requires AllWords(ts)
    ensures Split(Join(ts)) == ts
  {
    if ts == [] {
    } else if |ts| == 1 {
      SplitWordThen(ts[0], "");
      assert ts[0] + "" == ts[0];
    } else {
      var rest := Join(ts[1..]);
      assert ts[0] + " " + rest == ts[0] + (" " + rest);
      SplitWordThen(ts[0], " " + rest);
      SplitSkipsSpace(" ", rest);
      SplitJoin(ts[1..]);
      assert ts == [ts[0]] + ts[1..];
    }
  }

  /** Trailing whitespace after a join of words adds no token. */
  lemma {:induction false} SplitJoinThen(ts: seq<string>, w: string)
    requires AllWords(ts) && AllSpace(w)
    ensures Split(Join(ts) + w) == ts
  {
    if ts == [] {
      SplitSkipsSpace(w, "");
      assert Join(ts) + w == w + "";
    } else if |ts| == 1 {
      SplitWordThen(ts[0], w);
      SplitSkipsSpace(w, "");
      assert w + "" == w;
    } else {
      var rest := Join(ts[1..]);
      assert Join(ts) + w == ts[0] + (" " + (rest + w));
      SplitWordThen(ts[0], " " + (rest + w));
      SplitSkipsSpace(" ", rest + w);
      SplitJoinThen(ts[1..], w);
      assert ts == [ts[0]] + ts[1..];
    }
  }

  /** A join of words begins with the first word's first character. */
  lemma JoinFirst(ts: seq<string>)
    requires AllWords(ts) && ts != []
    ensures Join(ts) != [] && Join(ts)[0] == ts[0][0]
  {
  }

  /** A non-empty join of words starts and ends with a non-space character. */
  lemma {:induction false} JoinEnds(ts: seq<string>)
    requires AllWords(ts) && ts != []
    ensures Join(ts) != [] && !IsSpace(Join(ts)[0]) && !IsSpace(Join(ts)[|Join(ts)| - 1])
  {
    if |ts| > 1 {
      JoinEnds(ts[1..]);
    }
  }

  // ---------------------------------------------------------------- str.replace(pat, "")

  /** s.replace(pat, ""): every non-overlapping occurrence, scanned left to right, removed. */
  function RemoveAll(s: string, pat: string): (r: string)
    requires pat != []
    ensures |r| <= |s|
    decreases |s|
  {
    if |s| < |pat| then s
    else if s[..|pat|] == pat then RemoveAll(s[|pat|..], pat)
    else [s[0]] + RemoveAll(s[1..], pat)
  }

  lemma {:induction false} RemoveAllAbsent(s: string, pat: string)
    requires pat != [] && forall k :: 0 <= k < |s| ==> s[k] != pat[0]
    ensures RemoveAll(s, pat) == s
  {
    if |s| >= |pat| {
      assert s[..|pat|][0] != pat[0];
      RemoveAllAbsent(s[1..], pat);
      assert s == [s[0]] + s[1..];
    }
  }

  /** Removal passes over a prefix free of the pattern's first character unchanged. */
  lemma {:induction false} RemoveAllAfterAbsent(a: string, b: string, pat: string)
    requires pat != [] && forall k :: 0 <= k < |a| ==> a[k] != pat[0]
    ensures RemoveAll(a + b, pat) == a + RemoveAll(b, pat)
    decreases |a|
  {
    if a != [] {
      var s := a + b;
      if |s| < |pat| {
        // a + b is too short to hold pat, and so is b
        assert RemoveAll(b, pat) == b;
      } else {
        assert s[..|pat|][0] == a[0];
        assert s[1..] == a[1..] + b;
        RemoveAllAfterAbsent(a[1..], b, pat);
        assert a == [a[0]] + a[1..];
      }
    } else {
      assert a + b == b;
    }
  }

  // ---------------------------------------------------------------- decimal numbers

  predicate IsDigit(c: char) {
    '0' <= c <= '9'
  }

  predicate AllDigits(s: string) {
    forall k :: 0 <= k < |s| ==> IsDigit(s[k])
  }

  /** The value of a string of decimal digits, most significant first. */
  function DigitsValue(s: string): nat
    requires AllDigits(s)
  {
    if s == [] then 0
    else 10 * DigitsValue(s[..|s| - 1]) + (s[|s| - 1] as int - '0' as int)
  }

  /** int(s) restricted to plain digit strings: None where int() would raise ValueError. */
  function ParseNat(s: string): (r: Option<nat>)
    ensures r.Some? <==> s != [] && AllDigits(s)
  {
    if s != [] && AllDigits(s) then Some(DigitsValue(s)) else None
  }

  function DigitChar(d: nat): (c: char)
    requires d < 10
    ensures IsDigit(c) && c as int - '0' as int == d
  {
    ('0' as int + d) as char
  }

  /** str(n) for a natural number: its decimal digits without leading zeros. */
  function NatToString(n: nat): (s: string)
    ensures s != [] && AllDigits(s)
  {
    if n < 10 then [DigitChar(n)] else NatToString(n / 10) + [DigitChar(n % 10)]
  }

  /** The digits str(n) writes have the value n. */
  lemma {:induction false} NatToStringValue(n: nat)
    ensures DigitsValue(NatToString(n)) == n
  {
    if n >= 10 {
      var s := NatToString(n);
      assert s[..|s| - 1] == NatToString(n / 10);
      NatToStringValue(n / 10);
    }
  }

  /** str(x) for any integer: a minus sign before the digits of a negative value. */
  function IntToString(x: int): (s: string)
    ensures s != [] && (x >= 0 ==> s == NatToString(x))
    ensures x < 0 ==> s[0] == '-' && s[1..] == NatToString(-x)
  {
    if x < 0 then "-" + NatToString(-x) else NatToString(x)
  }

  /** Formatting a natural number and parsing it back gives the number. */
  lemma ParseNatToString(n: nat)
    ensures ParseNat(NatToString(n)) == Some(n)
  {
    NatToStringValue(n);
  }

  function Zeros(k: nat): (z: string)
    ensures |z| == k && forall i :: 0 <= i < k ==> z[i] == '0'
  {
    if k == 0 then "" else "0" + Zeros(k - 1)
  }

  /** The digits of n, left-padded with zeros to at least w characters. */
  function ZeroPad(n: nat, w: nat): (s: string)
    ensures |s| >= w && s != [] && AllDigits(s)
  {
    var d := NatToString(n);
    if |d| >= w then d else Zeros(w - |d|) + d
  }

  /** f"{x:05d}": the sign, if any, then the digits zero-padded so that the whole is
      at least five characters wide. */
  function Pad05(x: int): (s: string)
    ensures |s| >= 5
  {
    if x < 0 then "-" + ZeroPad(-x, 4) else ZeroPad(x, 5)
  }

  /** int(s) on the forms it accepts here: optional surrounding whitespace, an optional
      '+' or '-', then ASCII digits. None where int() raises ValueError. */
  function ParseInt(s: string): Option<int> {
    var t := Strip(s);
    if t != [] && (t[0] == '-' || t[0] == '+') then
      match ParseNat(t[1..])
      case None => None
      case Some(n) =>
        var v: int := n;
        Some(if t[0] == '-' then -v else v)
    else
      match ParseNat(t)
      case None => None
      case Some(n) => Some(n)
  }

  lemma {:induction false} LeadingZerosValue(z: string, s: string)
    requires (forall i :: 0 <= i < |z| ==> z[i] == '0') && AllDigits(s)
    ensures AllDigits(z + s) && DigitsValue(z + s) == DigitsValue(s)
    decreases |s|
  {
    if s == [] {
      assert z + s == z;
      ZerosValue(z);
    } else {
      var t := s[..|s| - 1];
      assert (z + s)[..|z + s| - 1] == z + t;
      LeadingZerosValue(z, t);
    }
  }

  lemma {:induction false} ZerosValue(z: string)
    requires forall i :: 0 <= i < |z| ==> z[i] == '0'
    ensures AllDigits(z) && DigitsValue(z) == 0
  {
    if z != [] {
      ZerosValue(z[..|z| - 1]);
    }
  }

  /** Zero padding does not change the value read back. */
  lemma ParseZeroPad(n: nat, w: nat)
    ensures ParseNat(ZeroPad(n, w)) == Some(n)
  {
    var d := NatToString(n);
    NatToStringValue(n);
    if |d| < w {
      LeadingZerosValue(Zeros(w - |d|), d);
    }
  }

  /** A string with non-space ends strips to itself. */
  lemma StripTrimmed(s: string)
    requires s != [] && !IsSpace(s[0]) && !IsSpace(s[|s| - 1])
    ensures Strip(s) == s
  {
    StripPadded("", s, "");
    assert "" + s + "" == s;
  }

  /** int() on a plain digit string. */
  lemma ParseDigits(d: string)
    requires d != [] && AllDigits(d)
    ensures ParseInt(d) == Some(DigitsValue(d))
  {
    assert IsDigit(d[0]) && IsDigit(d[|d| - 1]);
    StripTrimmed(d);
  }

  /** int() on a minus sign followed by a digit string. */
  lemma ParseNegative(d: string)
    requires d != [] && AllDigits(d)
    ensures ParseInt("-" + d) == Some(-(DigitsValue(d) as int))
  {
    var s := "-" + d;
    assert IsDigit(d[|d| - 1]) && s[|s| - 1] == d[|d| - 1];
    StripTrimmed(s);
    assert s[1..] == d;
  }

  /** int() reads back what f"{x:05d}" writes, for every integer x. */
  lemma ParsePad05(x: int)
    ensures ParseInt(Pad05(x)) == Some(x)
  {
    if x < 0 {
      var d := ZeroPad(-x, 4);
      assert DigitsValue(d) == -x by {
        ParseZeroPad(-x, 4);
      }
      ParseNegative(d);
    } else {
      var d := ZeroPad(x, 5);
      assert DigitsValue(d) == x by {
        ParseZeroPad(x, 5);
      }
      ParseDigits(d);
    }
  }

  /** str(x) is a single token: non-empty and free of whitespace. */
  lemma IntToStringWord(x: int)
    ensures IsWord(IntToString(x))
  {
    var s := IntToString(x);
    forall k | 0 <= k < |s|
      ensures !IsSpace(s[k])
    {
      if x < 0 && k > 0 {
        assert s[k] == NatToString(-x)[k - 1];
      }
    }
  }

  /** int() reads back what str() writes, for every integer x. */
  lemma ParseIntToString(x: int)
    ensures ParseInt(IntToString(x)) == Some(x)
  {
    if x < 0 {
      var d := NatToString(-x);
      assert DigitsValue(d) == -x by {
        NatToStringValue(-x);
      }
      assert IntToString(x) == "-" + d;
      ParseNegative(d);
    } else {
      var d := NatToString(x);
      assert DigitsValue(d) == x by {
        NatToStringValue(x);
      }
      ParseDigits(d);
    }
  }
}
