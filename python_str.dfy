/**
 * The Python 2 `str` operations that the AVG adapter applies to captured
 * process output: `sub in s`, `s.split(sep)`, `s.split(sep, 1)`, `s.split()`,
 * `s.strip()`, `s.splitlines()` and `filter(None, lines)`.
 *
 * A Python 2 `str` is a byte string; here each `char` stands for one byte.
 */
module PyStr {

  /** The bytes at which Python 2's `str.splitlines()` ends a line. */
  const LineBreaks: set<char> := {'\n', '\r'}

  /**
   * The bytes for which Python 2's `str.isspace()` holds: the space and the
   * control bytes \t, \n, \v, \f and \r, which are consecutive.
   */
  predicate IsSpace(c: char) {
    c == ' ' || ('\t' <= c <= '\r')
  }

  predicate AllSpace(s: string) {
    forall k :: 0 <= k < |s| ==> IsSpace(s[k])
  }

  predicate NoSpace(s: string) {
    forall k :: 0 <= k < |s| ==> !IsSpace(s[k])
  }

  // ------------------------------------------------------------ `sub in s`

  predicate StartsWith(s: string, prefix: string) {
    |prefix| <= |s| && s[..|prefix|] == prefix
  }

  /** Python's `sub in s`, searched from the left as CPython does. */
  predicate Contains(s: string, sub: string)
    decreases |s|
  {
    StartsWith(s, sub) || (|s| > 0 && Contains(s[1..], sub))
  }

  /** The reference meaning of `sub in s`: `sub` is the slice of `s` at `i`. */
  ghost predicate OccursAt(s: string, sub: string, i: int) {
    0 <= i && i + |sub| <= |s| && s[i..i + |sub|] == sub
  }

  /** The left-to-right search finds `sub` exactly when it occurs somewhere. */
  lemma {:induction false} ContainsIffOccurs(s: string, sub: string)
    ensures Contains(s, sub) <==> exists i :: OccursAt(s, sub, i)
    decreases |s|
  {
    if StartsWith(s, sub) {
      assert OccursAt(s, sub, 0);
    } else if |s| > 0 {
      ContainsIffOccurs(s[1..], sub);
      if Contains(s, sub) {
        var j :| OccursAt(s[1..], sub, j);
        assert s[1..][j..j + |sub|] == s[j + 1..j + 1 + |sub|];
        assert OccursAt(s, sub, j + 1);
      }
      if exists i :: OccursAt(s, sub, i) {
        var i :| OccursAt(s, sub, i);
        assert i != 0;
        assert s[1..][i - 1..i - 1 + |sub|] == s[i..i + |sub|];
        assert OccursAt(s[1..], sub, i - 1);
      }
    }
  }

  /** For a one-byte needle, `c in s` is plain membership. */
  lemma {:induction false} ContainsChar(s: string, c: char)
    ensures Contains(s, [c]) <==> c in s
    decreases |s|
  {
    if |s| > 0 {
      ContainsChar(s[1..], c);
      assert s == [s[0]] + s[1..];
    }
  }

  /** Only a string at least as long as a needle can contain it. */
  lemma {:induction false} ContainsLength(s: string, sub: string)
    requires Contains(s, sub)
    ensures |sub| <= |s|
    decreases |s|
  {
    if !StartsWith(s, sub) {
      ContainsLength(s[1..], sub);
    }
  }

  // ------------------------------------------------------ searching bytes

  /** Index of the first byte of `s` that lies in `cs`, or `|s|` when none does. */
  function IndexOf(s: string, cs: set<char>): (r: nat)
    ensures r <= |s|
    ensures forall k :: 0 <= k < r ==> s[k] !in cs
    ensures r < |s| ==> s[r] in cs
  {
    if s == [] || s[0] in cs then 0 else 1 + IndexOf(s[1..], cs)
  }

  /** Two byte classes that agree on every byte of `s` find the same position. */
  lemma {:induction false} IndexOfAgree(s: string, cs: set<char>, ds: set<char>)
    requires forall k :: 0 <= k < |s| ==> (s[k] in cs <==> s[k] in ds)
    ensures IndexOf(s, cs) == IndexOf(s, ds)
  {
  }

  // -------------------------------------------------------- s.split(sep)

  /** Python's `sep.join(parts)` for a one-byte separator. */
  function Join(parts: seq<string>, sep: char): string
  {
    if |parts| == 0 then []
    else if |parts| == 1 then parts[0]
    else parts[0] + [sep] + Join(parts[1..], sep)
  }

  /**
   * Python's `s.split(sep)` for a one-byte separator: the pieces between the
   * separators, so there is always one piece more than there are separators.
   */
  function Split(s: string, sep: char): (r: seq<string>)
    ensures |r| >= 1
    ensures |r| == 1 <==> sep !in s
    ensures forall k :: 0 <= k < |r| ==> sep !in r[k]
    decreases |s|
  {
    var i := IndexOf(s, {sep});
    if i == |s| then
      [s]
    else
      var rest := Split(s[i + 1..], sep);
      assert forall k :: 1 <= k < 1 + |rest| ==> ([s[..i]] + rest)[k] == rest[k - 1];
      [s[..i]] + rest
  }

  /** Joining the pieces again gives back the string: `sep.join(s.split(sep)) == s`. */
  lemma {:induction false} JoinSplit(s: string, sep: char)
    ensures Join(Split(s, sep), sep) == s
    decreases |s|
  {
    var i := IndexOf(s, {sep});
    if i < |s| {
      var rest := Split(s[i + 1..], sep);
      JoinSplit(s[i + 1..], sep);
      assert ([s[..i]] + rest)[1..] == rest;
      CutAt(s, i);
    }
  }

  /** A string is the part before position `i`, the byte at `i`, and the part after. */
  lemma CutAt(s: string, i: nat)
    requires i < |s|
    ensures s[..i] + [s[i]] + s[i + 1..] == s
  {
  }

  /** Splitting undoes joining: `sep.join(parts).split(sep) == parts`. */
  lemma {:induction false} SplitJoin(parts: seq<string>, sep: char)
    requires |parts| >= 1
    requires forall k :: 0 <= k < |parts| ==> sep !in parts[k]
    ensures Split(Join(parts, sep), sep) == parts
  {
    if |parts| == 1 {
      assert IndexOf(parts[0], {sep}) == |parts[0]|;
    } else {
      var p, rest := parts[0], parts[1..];
      assert parts == [p] + rest;
      assert forall k :: 0 <= k < |rest| ==> sep !in rest[k] by {
        forall k | 0 <= k < |rest| ensures sep !in rest[k] { assert rest[k] == parts[k + 1]; }
      }
      SplitJoin(rest, sep);
      SplitAt(p, sep, Join(rest, sep));
    }
  }

  /** The first separator of `p + [sep] + tail` is the one after `p`. */
  lemma SplitAt(p: string, sep: char, tail: string)
    requires sep !in p
    ensures Split(p + [sep] + tail, sep) == [p] + Split(tail, sep)
  {
    var s := p + [sep] + tail;
    assert s[|p|] == sep;
    assert forall k :: 0 <= k < |p| ==> s[k] == p[k];
    assert IndexOf(s, {sep}) == |p|;
    assert s[..|p|] == p;
    assert s[|p| + 1..] == tail;
  }

  /**
   * The second piece of `s.split(sep)` is the text between the first and the
   * second separator (or the end of `s`).
   */
  lemma SplitSecondField(s: string, sep: char)
    requires sep in s
    ensures |Split(s, sep)| >= 2
    ensures var rest := s[IndexOf(s, {sep}) + 1..];
            Split(s, sep)[1] == rest[..IndexOf(rest, {sep})]
  {
    var i := IndexOf(s, {sep});
    SeparatorFound(s, sep);
    SplitUnfold(s, sep, i);
    SplitFirst(s[i + 1..], sep);
  }

  /** A separator that `s` holds is found before the end. */
  lemma SeparatorFound(s: string, sep: char)
    requires sep in s
    ensures IndexOf(s, {sep}) < |s|
  {
    var k :| 0 <= k < |s| && s[k] == sep;
    assert IndexOf(s, {sep}) <= k;
  }

  /** At the first separator `i`, the first piece is cut off and the rest is split on. */
  lemma SplitUnfold(s: string, sep: char, i: nat)
    requires i == IndexOf(s, {sep}) < |s|
    ensures Split(s, sep) == [s[..i]] + Split(s[i + 1..], sep)
  {
  }

  /** The first piece of `s.split(sep)` runs up to the first separator. */
  lemma SplitFirst(s: string, sep: char)
    ensures Split(s, sep)[0] == s[..IndexOf(s, {sep})]
  {
    if IndexOf(s, {sep}) == |s| {
      assert s[..|s|] == s;
    }
  }

  // ----------------------------------------------------- s.split(sep, 1)

  /** Python's `s.split(sep, 1)`: at most one cut, at the first separator. */
  function SplitOnce(s: string, sep: char): (r: seq<string>)
    ensures |r| == 1 || |r| == 2
    ensures |r| == 2 <==> sep in s
    ensures sep !in r[0]
    ensures |r| == 1 ==> r[0] == s
    ensures |r| == 2 ==> var i := |r[0]|;
              i < |s| && r[0] == s[..i] && s[i] == sep && r[1] == s[i + 1..]
  {
    var i := IndexOf(s, {sep});
    if i == |s| then [s] else [s[..i], s[i + 1..]]
  }

  /**
   * `s.split(sep, 1)` and `s.split(sep)` cut at the same first separator, and
   * the second piece of the former splits into the rest of the latter.
   */
  lemma {:induction false} SplitOnceAgreesWithSplit(s: string, sep: char)
    ensures SplitOnce(s, sep)[0] == Split(s, sep)[0]
    ensures |SplitOnce(s, sep)| == 2 ==>
              Split(s, sep) == [SplitOnce(s, sep)[0]] + Split(SplitOnce(s, sep)[1], sep)
  {
    var i := IndexOf(s, {sep});
    if i < |s| {
      assert SplitOnce(s, sep) == [s[..i], s[i + 1..]];
      assert Split(s, sep) == [s[..i]] + Split(s[i + 1..], sep);
    } else {
      assert SplitOnce(s, sep) == [s] == Split(s, sep);
    }
  }

  // ------------------------------------------------------------ s.split()

  /** Where the run of non-whitespace bytes at the end of `s` starts (`|s|` when `s` ends in whitespace). */
  function RunStart(s: string): (r: nat)
    ensures r <= |s|
    ensures NoSpace(s[r..])
    ensures 0 < r ==> IsSpace(s[r - 1])
    decreases |s|
  {
    if s == [] || IsSpace(s[|s| - 1]) then |s|
    else
      var r := RunStart(s[..|s| - 1]);
      TailGrows(s, r);
      r
  }

  /** The tail of `s` from `r` is the tail of `s` without its last byte, then that byte. */
  lemma TailGrows(s: string, r: nat)
    requires r < |s|
    ensures s[r..] == s[..|s| - 1][r..] + [s[|s| - 1]]
  {
  }

  /**
   * Python's `s.split()`: the maximal runs of non-whitespace bytes, in order.
   * The list is built from the right end of `s`, which yields the same runs
   * as CPython's left-to-right scan.
   */
  function Words(s: string): seq<string>
    decreases |s|
  {
    if s == [] then []
    else if IsSpace(s[|s| - 1]) then Words(s[..|s| - 1])
    else
      var n := RunStart(s);
      Words(s[..n]) + [s[n..]]
  }

  /** Every piece of `s.split()` is a non-empty run without whitespace. */
  lemma {:induction false} WordsAreTokens(s: string)
    ensures forall k :: 0 <= k < |Words(s)| ==> Words(s)[k] != [] && NoSpace(Words(s)[k])
    decreases |s|
  {
    if s != [] {
      if IsSpace(s[|s| - 1]) {
        WordsAreTokens(s[..|s| - 1]);
      } else {
        var n := RunStart(s);
        WordsAreTokens(s[..n]);
      }
    }
  }

  /** `s.split()` finds no piece exactly when `s` is all whitespace. */
  lemma {:induction false} WordsEmptyIff(s: string)
    ensures Words(s) == [] <==> AllSpace(s)
    decreases |s|
  {
    if s != [] && IsSpace(s[|s| - 1]) {
      WordsEmptyIff(s[..|s| - 1]);
      SpaceLast(s);
    }
  }

  /** A string that ends in whitespace is all whitespace exactly when the rest is. */
  lemma SpaceLast(s: string)
    requires s != [] && IsSpace(s[|s| - 1])
    ensures AllSpace(s) <==> AllSpace(s[..|s| - 1])
  {
    if AllSpace(s[..|s| - 1]) {
      forall k | 0 <= k < |s| - 1 ensures IsSpace(s[k]) { assert s[k] == s[..|s| - 1][k]; }
    }
  }

  /** `t` is the last run of non-whitespace bytes of `e`, which ends in `t`. */
  predicate LastRun(t: string, e: string) {
    && |t| <= |e|
    && t == e[|e| - |t|..]
    && (|t| == |e| || IsSpace(e[|e| - |t| - 1]))
  }

  /**
   * The last piece of `s.split()` is the last run of non-whitespace bytes of
   * `s`: a suffix of `s.rstrip()` that is preceded by whitespace or by nothing.
   */
  lemma {:induction false} LastWord(s: string)
    requires !AllSpace(s)
    ensures Words(s) != [] && LastRun(Words(s)[|Words(s)| - 1], TrimEnd(s))
    decreases |s|
  {
    if IsSpace(s[|s| - 1]) {
      SpaceLast(s);
      LastWord(s[..|s| - 1]);
    } else {
      var n := RunStart(s);
      assert Words(s)[|Words(s)| - 1] == s[n..];
    }
  }

  // ----------------------------------------------------------- s.strip()

  /** Python's `s.rstrip()`: drops the trailing whitespace. */
  function TrimEnd(s: string): (r: string)
    ensures |r| <= |s| && r == s[..|r|]
    ensures AllSpace(s[|r|..])
    ensures r == [] || !IsSpace(r[|r| - 1])
    decreases |s|
  {
    if s != [] && IsSpace(s[|s| - 1]) then
      var r := TrimEnd(s[..|s| - 1]);
      TailGrows(s, |r|);
      r
    else s
  }

  /** `rstrip()` keeps every non-whitespace byte and adds none. */
  lemma TrimEndKeeps(s: string, c: char)
    requires !IsSpace(c)
    ensures c in TrimEnd(s) <==> c in s
  {
    var r := TrimEnd(s);
    assert forall j :: |r| <= j < |s| ==> IsSpace(s[j]) by {
      forall j | |r| <= j < |s| ensures IsSpace(s[j]) { assert s[j] == s[|r|..][j - |r|]; }
    }
    if c in s {
      var k :| 0 <= k < |s| && s[k] == c;
      assert r[k] == c;
    }
  }

  /** A string that starts with whitespace is all whitespace exactly when the rest is. */
  lemma SpaceFirst(s: string)
    requires s != [] && IsSpace(s[0])
    ensures AllSpace(s) <==> AllSpace(s[1..])
  {
    if AllSpace(s[1..]) {
      forall k | 0 < k < |s| ensures IsSpace(s[k]) { assert s[k] == s[1..][k - 1]; }
    }
  }

  /**
   * Python's `s.strip()`: `lstrip()` then `rstrip()`. The result is empty
   * exactly when `s` is all whitespace, and otherwise starts and ends with a
   * non-whitespace byte.
   */
  function Strip(s: string): (r: string)
    ensures r == [] <==> AllSpace(s)
    ensures r != [] ==> !IsSpace(r[0]) && !IsSpace(r[|r| - 1])
    decreases |s|
  {
    if s != [] && IsSpace(s[0]) then
      SpaceFirst(s);
      Strip(s[1..])
    else
      var r := TrimEnd(s);
      assert r != [] ==> r[0] == s[0];
      assert r == [] ==> s == s[|r|..];
      r
  }

  /** `strip()` keeps every non-whitespace byte and adds none. */
  lemma {:induction false} StripKeeps(s: string, c: char)
    requires !IsSpace(c)
    ensures c in Strip(s) <==> c in s
    decreases |s|
  {
    if s != [] && IsSpace(s[0]) {
      StripKeeps(s[1..], c);
      assert s == [s[0]] + s[1..];
    } else {
      TrimEndKeeps(s, c);
    }
  }

  /** Stripping a string without whitespace leaves it as it is. */
  lemma StripNoSpace(s: string)
    requires NoSpace(s)
    ensures Strip(s) == s
  {
  }

  /** The length of the leading run of whitespace: what `lstrip()` removes. */
  function LeadingSpace(s: string): (n: nat)
    ensures n <= |s| && AllSpace(s[..n])
    ensures n < |s| ==> !IsSpace(s[n])
    decreases |s|
  {
    if s != [] && IsSpace(s[0]) then
      var n := 1 + LeadingSpace(s[1..]);
      assert forall k :: 1 <= k < n ==> s[..n][k] == s[1..][..n - 1][k - 1];
      n
    else 0
  }

  /** `strip()` is `rstrip()` applied after the leading whitespace is cut off. */
  lemma {:induction false} StripAfterLeading(s: string)
    ensures Strip(s) == TrimEnd(s[LeadingSpace(s)..])
    decreases |s|
  {
    if s != [] && IsSpace(s[0]) {
      StripAfterLeading(s[1..]);
      assert s[1..][LeadingSpace(s[1..])..] == s[LeadingSpace(s)..];
    } else {
      assert s[0..] == s;
    }
  }

  /**
   * `strip()` is the slice of `s` between its leading and its trailing run of
   * whitespace, and only whitespace lies outside it.
   */
  lemma StripSlice(s: string)
    ensures var i, r := LeadingSpace(s), Strip(s);
            && i + |r| <= |s| && r == s[i..i + |r|]
            && AllSpace(s[..i]) && AllSpace(s[i + |r|..])
  {
    var i, r := LeadingSpace(s), Strip(s);
    StripAfterLeading(s);
    var t := s[i..];
    assert r == t[..|r|] && AllSpace(t[|r|..]);
    SliceOfTail(s, i, |r|);
  }

  /** Cutting the tail of `s` from `i` at `n` is cutting `s` at `i + n`. */
  lemma SliceOfTail(s: string, i: nat, n: nat)
    requires i + n <= |s|
    ensures s[i..][..n] == s[i..i + n] && s[i..][n..] == s[i + n..]
  {
  }

  // ----------------------------------------------------- s.splitlines()

  /**
   * Python 2's `str.splitlines()`: cuts at "\n", at "\r" and at "\r\n"; a line
   * break at the very end does not open another, empty, line.
   */
  function SplitLines(s: string): (r: seq<string>)
    ensures r == [] <==> s == []
    ensures forall k :: 0 <= k < |r| ==> '\n' !in r[k] && '\r' !in r[k]
    decreases |s|
  {
    if s == [] then []
    else
      var i := IndexOf(s, LineBreaks);
      if i == |s| then [s]
      else
        var next := if s[i] == '\r' && i + 1 < |s| && s[i + 1] == '\n' then i + 2 else i + 1;
        [s[..i]] + SplitLines(s[next..])
  }

  /** Every line break of `s` written as "\n": "\r\n" and a lone "\r" each become one "\n". */
  function Normalize(s: string): string
    decreases |s|
  {
    if s == [] then []
    else if s[0] == '\r' then
      if |s| > 1 && s[1] == '\n' then "\n" + Normalize(s[2..]) else "\n" + Normalize(s[1..])
    else [s[0]] + Normalize(s[1..])
  }

  /** The pieces without the last one when that one is empty. */
  function DropFinalEmpty(pieces: seq<string>): seq<string> {
    if pieces != [] && pieces[|pieces| - 1] == [] then pieces[..|pieces| - 1] else pieces
  }

  /** The text before the first line break passes through `Normalize` unchanged. */
  lemma {:induction false} NormalizeLine(s: string, i: nat)
    requires i <= |s| && forall k :: 0 <= k < i ==> s[k] !in LineBreaks
    ensures Normalize(s) == s[..i] + Normalize(s[i..])
    decreases i
  {
    if i > 0 {
      NormalizeLine(s[1..], i - 1);
      assert s[1..][i - 1..] == s[i..];
      assert s[..i] == [s[0]] + s[1..][..i - 1];
    }
  }

  /** A line without breaks is its own, only, line. */
  lemma OneLine(s: string)
    requires s != [] && forall k :: 0 <= k < |s| ==> s[k] !in LineBreaks
    ensures DropFinalEmpty(Split(Normalize(s), '\n')) == [s]
  {
    NormalizeLine(s, |s|);
    assert s[..|s|] == s && s[|s|..] == [];
    assert Normalize(s) == s;
    IndexOfAgree(s, LineBreaks, {'\n'});
    assert Split(s, '\n') == [s];
  }

  /** A line break at `i` becomes one "\n", and normalizing goes on at `next`. */
  lemma NormalizeBreak(s: string, i: nat)
    requires i < |s| && s[i] in LineBreaks
    ensures var next := if s[i] == '\r' && i + 1 < |s| && s[i + 1] == '\n' then i + 2 else i + 1;
            Normalize(s[i..]) == "\n" + Normalize(s[next..])
  {
    assert s[i..][0] == s[i];
    assert s[i..][1..] == s[i + 1..];
    if s[i] == '\r' && i + 1 < |s| && s[i + 1] == '\n' {
      assert s[i..][1] == s[i + 1];
      assert s[i..][2..] == s[i + 2..];
    }
  }

  /** A first line in front of at least one piece is kept by `DropFinalEmpty`. */
  lemma DropFinalEmptyCons(line: string, pieces: seq<string>)
    requires |pieces| >= 1
    ensures DropFinalEmpty([line] + pieces) == [line] + DropFinalEmpty(pieces)
  {
    if pieces[|pieces| - 1] == [] {
      assert ([line] + pieces)[..|pieces|] == [line] + pieces[..|pieces| - 1];
    }
  }

  /** Normalizing cuts the text at its first line break `i` into the line, one "\n", and the rest. */
  lemma NormalizeFirstBreak(s: string, i: nat, next: nat)
    requires i == IndexOf(s, LineBreaks) < |s|
    requires next == if s[i] == '\r' && i + 1 < |s| && s[i + 1] == '\n' then i + 2 else i + 1
    ensures Normalize(s) == s[..i] + ['\n'] + Normalize(s[next..])
  {
    NormalizeLine(s, i);
    NormalizeBreak(s, i);
  }

  /**
   * At the first line break, splitting the normalized text at "\n" cuts off
   * the line before it and goes on after the break, as `splitlines()` does.
   */
  lemma FirstLineBreak(s: string, i: nat, next: nat)
    requires i == IndexOf(s, LineBreaks) < |s|
    requires next == if s[i] == '\r' && i + 1 < |s| && s[i + 1] == '\n' then i + 2 else i + 1
    ensures SplitLines(s) == [s[..i]] + SplitLines(s[next..])
    ensures Split(Normalize(s), '\n') == [s[..i]] + Split(Normalize(s[next..]), '\n')
  {
    NormalizeFirstBreak(s, i, next);
    SplitAt(s[..i], '\n', Normalize(s[next..]));
  }

  /**
   * `s.splitlines()` for every text: write each line break as "\n", split at
   * "\n", and drop the empty piece that a final line break (or the empty text)
   * leaves at the end.
   */
  lemma {:induction false} SplitLinesBySplit(s: string)
    ensures SplitLines(s) == DropFinalEmpty(Split(Normalize(s), '\n'))
    decreases |s|
  {
    if s == [] {
      assert IndexOf([], {'\n'}) == 0;
    } else {
      var i := IndexOf(s, LineBreaks);
      if i == |s| {
        OneLine(s);
      } else {
        var next := if s[i] == '\r' && i + 1 < |s| && s[i + 1] == '\n' then i + 2 else i + 1;
        var rest := s[next..];
        FirstLineBreak(s, i, next);
        SplitLinesBySplit(rest);
        DropFinalEmptyCons(s[..i], Split(Normalize(rest), '\n'));
      }
    }
  }

  // ------------------------------------------------- filter(None, lines)

  /** Python 2's `filter(None, lines)`: the non-empty lines, in their order. */
  function NonEmpty(lines: seq<string>): (r: seq<string>)
    ensures |r| <= |lines|
    ensures forall k :: 0 <= k < |r| ==> r[k] != []
    ensures forall x :: x in r <==> x in lines && x != []
  {
    if lines == [] then []
    else if lines[0] == [] then
      assert forall x :: x in lines <==> x == lines[0] || x in lines[1..];
      NonEmpty(lines[1..])
    else
      assert forall x :: x in lines <==> x == lines[0] || x in lines[1..];
      [lines[0]] + NonEmpty(lines[1..])
  }

  /** Filtering distributes over concatenation. */
  lemma {:induction false} NonEmptyAppend(a: seq<string>, b: seq<string>)
    ensures NonEmpty(a + b) == NonEmpty(a) + NonEmpty(b)
  {
    if a != [] {
      assert (a + b)[1..] == a[1..] + b;
      NonEmptyAppend(a[1..], b);
    } else {
      assert a + b == b;
    }
  }

  /**
   * On text without "\r", the non-empty lines of `s.splitlines()` are those of
   * `s.split('\n')`: the two line splitters of the adapter differ only in how
   * they treat carriage returns.
   */
  lemma {:induction false} SplitLinesWithoutCarriageReturn(s: string)
    requires '\r' !in s
    ensures NonEmpty(SplitLines(s)) == NonEmpty(Split(s, '\n'))
    decreases |s|
  {
    if s != [] {
      IndexOfAgree(s, LineBreaks, {'\n'});
      var i := IndexOf(s, LineBreaks);
      if i < |s| {
        assert s[i] == '\n';
        var line, rest := s[..i], s[i + 1..];
        assert '\r' !in rest;
        assert SplitLines(s) == [line] + SplitLines(rest);
        assert Split(s, '\n') == [line] + Split(rest, '\n');
        SplitLinesWithoutCarriageReturn(rest);
        NonEmptyAppend([line], SplitLines(rest));
        NonEmptyAppend([line], Split(rest, '\n'));
      }
    }
  }
}
