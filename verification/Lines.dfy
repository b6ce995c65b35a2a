/** Physical lines: how text is cut at CR LF, CR and LF. */
module Lines {
  import opened Wrappers
  import opened Chars

  /** Length of the first physical line of `s`, its line ending included. */
  function FirstLineLength(s: Text): (n: nat)
    requires s != []
    ensures 0 < n <= |s|
  {
    if s[0] == LF then 1
    else if s[0] == CR then if |s| > 1 && s[1] == LF then 2 else 1
    else if |s| == 1 then 1
    else 1 + FirstLineLength(s[1..])
  }

  function SplitLines(s: Text): seq<Text> {
    if s == [] then []
    else
      var n := FirstLineLength(s);
      [s[..n]] + SplitLines(s[n..])
  }

  /** One physical line: nothing but its own end separates it from what follows. */
  predicate IsPhysical(l: Text) {
    l != [] && FirstLineLength(l) == |l|
  }

  /** Cutting `a + b` at the joint keeps both sides' lines: no CR LF straddles it and no line runs across it. */
  predicate CleanCut(a: Text, b: Text) {
    a == [] || b == [] || (EndsWithEol(a) && !(a[|a| - 1] == CR && b[0] == LF))
  }

  // --- ascii_splitlines -------------------------------------------------

  /** End of the leftmost match of `\r\n?|\n` in `s` at or after `from`. */
  function FindEol(s: Text, from: nat): Option<nat>
    requires from <= |s|
    decreases |s| - from
  {
    if from == |s| then None
    else if s[from] == LF then Some(from + 1)
    else if s[from] == CR then
      if from + 1 < |s| && s[from + 1] == LF then Some(from + 2) else Some(from + 1)
    else FindEol(s, from + 1)
  }

  lemma {:induction false} FindEolEndsFirstLine(s: Text, from: nat)
    requires from < |s|
    ensures var m := FindEol(s, from);
            FirstLineLength(s[from..]) == (if m.Some? then m.value else |s|) - from
    decreases |s| - from
  {
    if !IsEol(s[from]) && from + 1 < |s| {
      FindEolEndsFirstLine(s, from + 1);
      assert s[from..][1..] == s[from + 1..];
    }
  }

  /** One turn of the loop below: the lines from `from` on are the one `FindEol` ends and those after it. */
  lemma SplitAtEol(s: Text, from: nat)
    requires from < |s|
    ensures var e := if FindEol(s, from).Some? then FindEol(s, from).value else |s|;
            from < e <= |s| && SplitLines(s[from..]) == [s[from..e]] + SplitLines(s[e..])
  {
    FindEolEndsFirstLine(s, from);
    var n := FirstLineLength(s[from..]);
    assert s[from..][..n] == s[from..from + n];
    assert s[from..][n..] == s[from + n..];
  }

  method AsciiSplitlines(s: Text) returns (lines: seq<Text>)
    ensures lines == SplitLines(s)
  {
    lines := [];
    var lastend := 0;
    var m := FindEol(s, 0);
    ghost var rest := SplitLines(s);
    assert s[0..] == s;
    while m.Some?
      invariant lastend <= |s| && m == FindEol(s, lastend)
      invariant rest == SplitLines(s[lastend..]) && SplitLines(s) == lines + rest
      decreases |s| - lastend
    {
      SplitAtEol(s, lastend);
      var line := s[lastend..m.value];
      lines, rest := lines + [line], SplitLines(s[m.value..]);
      lastend := m.value;
      m := FindEol(s, lastend);
    }
    if lastend < |s| {
      SplitAtEol(s, lastend);
      assert s[lastend..|s|] == s[lastend..] && SplitLines(s[|s|..]) == [];
      lines := lines + [s[lastend..]];
    }
  }

  // --- reading line by line ---------------------------------------------

  /** What `StringIO.readline` takes: everything up to and including the next LF. */
  function ReadlineLength(s: Text): (n: nat)
    requires s != []
    ensures 0 < n <= |s|
    ensures n == |s| || s[n - 1] == LF
  {
    if s[0] == LF || |s| == 1 then 1 else 1 + ReadlineLength(s[1..])
  }

  lemma ReadlineCutsCleanly(s: Text)
    requires s != []
    ensures var n := ReadlineLength(s); SplitLines(s) == SplitLines(s[..n]) + SplitLines(s[n..])
  {
    var n := ReadlineLength(s);
    assert s[..n] + s[n..] == s;
    SplitLinesAppend(s[..n], s[n..]);
  }

  /** `lineiter`: read to the next LF, cut what was read, repeat. */
  method LineIterator(text: Text) returns (lines: seq<Text>)
    ensures lines == SplitLines(text)
  {
    lines := [];
    var fp := text;
    while fp != []
      invariant SplitLines(text) == lines + SplitLines(fp)
      decreases |fp|
    {
      var n := ReadlineLength(fp);
      var cut := AsciiSplitlines(fp[..n]);
      ReadlineCutsCleanly(fp);
      lines := lines + cut;
      fp := fp[n..];
    }
  }

  // --- one kind of line end -----------------------------------------------

  /** Every line end as LF: `NON_N_EOL_RGX.sub("\n", s)`, the regex being `\r\n?`, and what reading a file in text mode
      makes of it. */
  function NormalizeEol(s: Text): Text {
    if s == [] then []
    else if s[0] == CR then [LF] + NormalizeEol(if |s| > 1 && s[1] == LF then s[2..] else s[1..])
    else [s[0]] + NormalizeEol(s[1..])
  }

  lemma {:induction false} NormalizedHasNoCr(s: Text)
    ensures CR !in NormalizeEol(s)
    decreases |s|
  {
    if s != [] {
      if s[0] == CR {
        NormalizedHasNoCr(if |s| > 1 && s[1] == LF then s[2..] else s[1..]);
      } else {
        NormalizedHasNoCr(s[1..]);
      }
    }
  }

  lemma {:induction false} NormalizeWithoutCr(s: Text)
    requires CR !in s
    ensures NormalizeEol(s) == s
  {
    if s != [] {
      NormalizeWithoutCr(s[1..]);
    }
  }

  // --- laws -------------------------------------------------------------

  /** A longer text has the same first line when that line is not what the new end cuts through. */
  lemma {:induction false} FirstLineOfPrefix(a: Text, b: Text)
    requires a != [] && CleanCut(a, b)
    ensures FirstLineLength(a + b) == FirstLineLength(a)
  {
    if b == [] {
      assert a + b == a;
    } else if !IsEol(a[0]) && |a| > 1 {
      assert (a + b)[1..] == a[1..] + b;
      FirstLineOfPrefix(a[1..], b);
    }
  }

  lemma {:induction false} SplitLinesAppend(a: Text, b: Text)
    requires CleanCut(a, b)
    ensures SplitLines(a + b) == SplitLines(a) + SplitLines(b)
    decreases |a|
  {
    if a == [] {
      assert a + b == b;
    } else {
      var n := FirstLineLength(a);
      FirstLineOfPrefix(a, b);
      assert (a + b)[..n] == a[..n];
      assert (a + b)[n..] == a[n..] + b;
      SplitLinesAppend(a[n..], b);
    }
  }

  /** Splitting loses nothing. */
  lemma {:induction false} SplitLinesLossless(s: Text)
    ensures Flatten(SplitLines(s)) == s
    decreases |s|
  {
    if s != [] {
      SplitLinesLossless(s[FirstLineLength(s)..]);
    }
  }

  lemma {:induction false} FirstLineIsPhysical(s: Text, m: nat)
    requires s != [] && FirstLineLength(s) <= m <= |s|
    ensures FirstLineLength(s[..m]) == FirstLineLength(s)
  {
    if !IsEol(s[0]) && |s| > 1 && m > 1 {
      assert s[..m][1..] == s[1..][..m - 1];
      FirstLineIsPhysical(s[1..], m - 1);
    }
  }

  /** Splitting the text of the lines from `n` on gives those lines again. */
  lemma {:induction false} SplitLinesOfSuffix(s: Text, n: nat)
    requires n <= |SplitLines(s)|
    ensures SplitLines(Flatten(SplitLines(s)[n..])) == SplitLines(s)[n..]
    decreases |s|
  {
    var ls := SplitLines(s);
    if n == 0 {
      SplitLinesLossless(s);
      assert ls[0..] == ls;
    } else {
      var rest := s[FirstLineLength(s)..];
      SplitLinesOfSuffix(rest, n - 1);
      assert ls[n..] == SplitLines(rest)[n - 1..];
    }
  }

  /** A prefix of `s` that holds its whole first line has that first line. */
  lemma FirstLineOfLongPrefix(s: Text, tail: Text)
    requires s != [] && tail <= s[FirstLineLength(s)..]
    ensures var k := FirstLineLength(s);
            s[..k] + tail <= s && SplitLines(s[..k] + tail) == [s[..k]] + SplitLines(tail)
  {
    var k := FirstLineLength(s);
    var head := s[..k] + tail;
    assert s == s[..k] + s[k..];
    FirstLineIsPhysical(s, |head|);
    assert s[..|head|] == head;
    assert head[..k] == s[..k] && head[k..] == tail;
  }

  /** Splitting the text of the first `n` lines gives those lines again. */
  lemma {:induction false} SplitLinesOfPrefix(s: Text, n: nat)
    requires n <= |SplitLines(s)|
    ensures SplitLines(Flatten(SplitLines(s)[..n])) == SplitLines(s)[..n]
    ensures Flatten(SplitLines(s)[..n]) <= s
    decreases |s|
  {
    hide FirstLineLength;
    if n > 0 {
      var k := FirstLineLength(s);
      var more := SplitLines(s[k..]);
      SplitLinesOfPrefix(s[k..], n - 1);
      FirstLineOfLongPrefix(s, Flatten(more[..n - 1]));
      assert SplitLines(s)[..n] == [s[..k]] + more[..n - 1];
    }
  }

  lemma {:induction false} LinesArePhysical(s: Text, i: nat)
    requires i < |SplitLines(s)|
    ensures IsPhysical(SplitLines(s)[i])
    ensures i < |SplitLines(s)| - 1 ==> EndsWithEol(SplitLines(s)[i])
    decreases |s|
  {
    var k := FirstLineLength(s);
    if i == 0 {
      FirstLineIsPhysical(s, k);
      FirstLineEnds(s);
    } else {
      LinesArePhysical(s[k..], i - 1);
    }
  }

  lemma {:induction false} FirstLineEnds(s: Text)
    requires s != []
    ensures FirstLineLength(s) < |s| ==> IsEol(s[FirstLineLength(s) - 1])
  {
    if !IsEol(s[0]) && |s| > 1 {
      FirstLineEnds(s[1..]);
    }
  }

  /** A physical line is a body without line endings and at most one line ending. */
  lemma {:induction false} PhysicalShape(l: Text)
    requires IsPhysical(l)
    ensures RStripEol(l) <= l && NoEol(RStripEol(l))
    ensures IsLineEnding(l[|RStripEol(l)|..])
  {
    if IsEol(l[0]) {
      if |l| == 2 {
        assert RStripEol(l[..1]) == RStripEol(l[..1][..0]);
        assert RStripEol(l) == [];
        assert l == [CR, LF];
      } else {
        assert RStripEol(l) == RStripEol(l[..0]) == [];
        assert l == [l[0]];
      }
    } else if |l| == 1 {
      assert RStripEol(l) == l;
      assert l[1..] == [];
    } else {
      var t := l[1..];
      PhysicalShape(t);
      RStripEolCons(l[0], t);
      assert [l[0]] + t == l;
      assert l[1 + |RStripEol(t)|..] == t[|RStripEol(t)|..];
    }
  }

  lemma {:induction false} RStripEolCons(c: CodePoint, t: Text)
    requires !IsEol(c)
    ensures RStripEol([c] + t) == [c] + RStripEol(t)
  {
    if EndsWithEol(t) {
      assert ([c] + t)[..|t|] == [c] + t[..|t| - 1];
      RStripEolCons(c, t[..|t| - 1]);
    }
  }
}
