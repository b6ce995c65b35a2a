/** Text as the source handles it. A Python `str` is a sequence of code points in which
    surrogates may stand alone, so a code point is a number here and not a Dafny `char`. */
module Chars {
  type CodePoint = c: int | 0 <= c < 0x11_0000
  type Text = seq<CodePoint>

  const TAB: CodePoint := 0x09
  const LF: CodePoint := 0x0A
  const FF: CodePoint := 0x0C
  const CR: CodePoint := 0x0D
  const SPACE: CodePoint := 0x20
  const BANG: CodePoint := 0x21
  const HASH: CodePoint := 0x23
  const COLON: CodePoint := 0x3A
  const EQUALS: CodePoint := 0x3D
  const BACKSLASH: CodePoint := 0x5C

  /** The class `[ \t\f]` of the source's regexes. */
  predicate IsBlank(c: CodePoint) {
    c == SPACE || c == TAB || c == FF
  }

  predicate IsEol(c: CodePoint) {
    c == LF || c == CR
  }

  /** What `\r?\n?` may take, and so what may end a physical line. */
  predicate IsLineEnding(e: Text) {
    e == [] || e == [LF] || e == [CR] || e == [CR, LF]
  }

  predicate NoEol(s: Text) {
    forall i :: 0 <= i < |s| ==> !IsEol(s[i])
  }

  predicate EndsWithEol(s: Text) {
    s != [] && IsEol(s[|s| - 1])
  }

  /** `s.lstrip(" \t\f")` */
  function LStrip(s: Text): Text {
    if s != [] && IsBlank(s[0]) then LStrip(s[1..]) else s
  }

  /** `s.rstrip("\r\n")` */
  function RStripEol(s: Text): Text {
    if EndsWithEol(s) then RStripEol(s[..|s| - 1]) else s
  }

  function TrailingBackslashes(s: Text): (n: nat)
    ensures n <= |s|
  {
    if s != [] && s[|s| - 1] == BACKSLASH then 1 + TrailingBackslashes(s[..|s| - 1]) else 0
  }

  function Flatten(ls: seq<Text>): Text {
    if ls == [] then [] else ls[0] + Flatten(ls[1..])
  }

  lemma {:induction false} FlattenAppend(a: seq<Text>, b: seq<Text>)
    ensures Flatten(a + b) == Flatten(a) + Flatten(b)
  {
    if a == [] {
      assert a + b == b;
    } else {
      assert (a + b)[1..] == a[1..] + b;
      FlattenAppend(a[1..], b);
    }
  }

  /** The run of backslashes that ends `a + b` lies in `b` unless `b` is nothing but backslashes. */
  lemma {:induction false} TrailingBackslashesAppend(a: Text, b: Text)
    ensures TrailingBackslashes(a + b)
         == if TrailingBackslashes(b) == |b| then TrailingBackslashes(a) + |b| else TrailingBackslashes(b)
  {
    if b == [] {
      assert a + b == a;
    } else {
      assert (a + b)[..|a + b| - 1] == a + b[..|b| - 1];
      TrailingBackslashesAppend(a, b[..|b| - 1]);
    }
  }

  /** Stripping blanks on the left never reaches the trailing run of backslashes. */
  lemma {:induction false} LStripShape(s: Text)
    ensures |LStrip(s)| <= |s|
    ensures s[|s| - |LStrip(s)|..] == LStrip(s)
    ensures forall i :: 0 <= i < |s| - |LStrip(s)| ==> IsBlank(s[i])
    ensures LStrip(s) != [] ==> !IsBlank(LStrip(s)[0])
  {
    if s != [] && IsBlank(s[0]) {
      LStripShape(s[1..]);
    }
  }

  lemma {:induction false} LStripKeepsRun(s: Text)
    ensures TrailingBackslashes(LStrip(s)) == TrailingBackslashes(s)
  {
    if s != [] && IsBlank(s[0]) {
      LStripKeepsRun(s[1..]);
      assert TrailingBackslashes([s[0]]) == 0;
      TrailingBackslashesAppend([s[0]], s[1..]);
      assert [s[0]] + s[1..] == s;
    }
  }

  lemma {:induction false} LStripAppend(a: Text, b: Text)
    ensures LStrip(a + b) == if LStrip(a) == [] then LStrip(b) else LStrip(a) + b
  {
    if a == [] {
      assert a + b == b;
    } else if IsBlank(a[0]) {
      assert (a + b)[1..] == a[1..] + b;
      LStripAppend(a[1..], b);
    }
  }
}
