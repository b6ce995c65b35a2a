/** Whole documents written by `dumps`: every line of the header is a comment, every line behind it an entry. */
module CommentLaws {
  import opened Wrappers
  import opened Chars
  import opened Lines
  import opened OrderedDicts
  import opened Reading
  import opened Writing
  import opened EscapeLaws
  import opened Documents
  import opened SelfDelimiting
  import opened Reparse
  import opened Sysprops
  import Runs

  /** The character at `i` is no CR, and an LF has a marker behind it. */
  predicate MarkedAt(t: Text, i: nat)
    requires i < |t|
  {
    t[i] != CR && (t[i] == LF ==> i + 1 < |t| && IsMark(t[i + 1]))
  }

  /** Lines of a comment: no CR, and a marker behind every LF. */
  predicate Marked(t: Text) {
    forall i :: 0 <= i < |t| ==> MarkedAt(t, i)
  }

  lemma MarkedCons(c: CodePoint, t: Text)
    requires Marked(t) && c != CR && (c == LF ==> t != [] && IsMark(t[0]))
    ensures Marked([c] + t)
  {
    var s := [c] + t;
    forall i | 0 <= i < |s|
      ensures MarkedAt(s, i)
    {
      if i > 0 {
        assert MarkedAt(t, i - 1);
      }
    }
  }

  lemma {:induction false} MarkLinesIsMarked(s: Text)
    requires CR !in s
    ensures Marked(MarkLines(s))
    ensures s != [] && IsMark(s[0]) ==> MarkLines(s) != [] && IsMark(MarkLines(s)[0])
  {
    hide Marked;
    if s == [] {
      NothingIsMarked();
    } else {
      MarkLinesIsMarked(s[1..]);
      var more := MarkLines(s[1..]);
      if s[0] == LF && (|s| == 1 || !IsMark(s[1])) {
        MarkedCons(HASH, more);
        MarkedCons(LF, [HASH] + more);
        assert [LF] + ([HASH] + more) == [LF, HASH] + more;
      } else {
        MarkedCons(s[0], more);
      }
    }
  }

  lemma NothingIsMarked()
    ensures Marked([])
  {
  }

  /** An escape holds neither line endings nor anything else a comment's lines could break at. */
  lemma EscapedCommentChar(c: CodePoint, t: Text)
    requires c > 0x7F && Marked(t)
    ensures Marked(EscapeChar(c) + t)
  {
    hide Marked, Hex4;
    var u := [BACKSLASH, LETTER_U];
    if c > 0xFFFF {
      var h, l := Hex4(HighSurrogate(c)), Hex4(LowSurrogate(c));
      MarkedHex(LowSurrogate(c), t);
      MarkedHex(HighSurrogate(c), u + l + t);
      assert u + h + (u + l + t) == u + h + (u + l) + t;
    } else {
      MarkedHex(c, t);
    }
  }

  lemma MarkedHex(n: CodePoint, t: Text)
    requires n < 0x1_0000 && Marked(t)
    ensures Marked([BACKSLASH, LETTER_U] + Hex4(n) + t)
  {
    hide Marked, HexDigit;
    var h := Hex4(n);
    MarkedCons(h[3], t);
    MarkedCons(h[2], [h[3]] + t);
    MarkedCons(h[1], [h[2]] + ([h[3]] + t));
    MarkedCons(h[0], [h[1]] + ([h[2]] + ([h[3]] + t)));
    var x := [h[0]] + ([h[1]] + ([h[2]] + ([h[3]] + t)));
    assert x == h + t;
    MarkedCons(LETTER_U, h + t);
    MarkedCons(BACKSLASH, [LETTER_U] + (h + t));
    assert [BACKSLASH] + ([LETTER_U] + (h + t)) == [BACKSLASH, LETTER_U] + h + t;
  }

  lemma MarkedTail(t: Text)
    requires Marked(t) && t != []
    ensures Marked(t[1..]) && t[0] != CR && (t[0] == LF ==> |t| > 1 && IsMark(t[1]))
  {
    assert MarkedAt(t, 0);
    forall i | 0 <= i < |t[1..]|
      ensures MarkedAt(t[1..], i)
    {
      assert MarkedAt(t, i + 1);
    }
  }

  lemma {:induction false} EscapeCommentIsMarked(s: Text, charset: CommentCharset)
    requires Marked(s)
    ensures Marked(EscapeComment(s, charset))
    ensures s != [] && IsMark(s[0]) ==> EscapeComment(s, charset) != [] && IsMark(EscapeComment(s, charset)[0])
  {
    hide Marked, EscapeChar;
    if s == [] {
      NothingIsMarked();
    } else {
      MarkedTail(s);
      EscapeCommentIsMarked(s[1..], charset);
      var more := EscapeComment(s[1..], charset);
      if (charset.Latin1? && s[0] > 0xFF) || (charset.Ascii? && s[0] > 0x7F) {
        EscapedCommentChar(s[0], more);
      } else {
        MarkedCons(s[0], more);
      }
    }
  }

  /** Whatever the comment holds, every line `to_comment` makes of it starts with a comment marker. */
  lemma ToCommentIsMarked(comment: Text, charset: CommentCharset)
    ensures var t := ToComment(comment, charset); Marked(t) && t != [] && IsMark(t[0])
  {
    hide Marked, NormalizeEol, MarkLines, EscapeComment;
    var s := NormalizeEol(comment);
    NormalizedHasNoCr(comment);
    MarkLinesIsMarked(s);
    EscapeCommentIsMarked(MarkLines(s), charset);
    MarkedCons(HASH, EscapeComment(MarkLines(s), charset));
  }

  // --- comment lines parse as comments ------------------------------------

  lemma MarkIsComment(body: Text)
    requires NoEol(body) && body != [] && IsMark(body[0])
    ensures Faithful(Comment(body + [LF])) && IsCommentLine(body + [LF])
  {
    hide ParseLines;
    var l := body + [LF];
    var e := Comment(l);
    LineIsPhysical(body, [LF]);
    assert l[..|l|] == l && l[|l|..] == [];
    assert SplitLines(l) == [l];
    assert LStrip(l) == l;
    UnitIsFaithful(e);
  }

  lemma CommentIsClosed(source: Text)
    ensures !Open(Comment(source))
  {
  }

  lemma MarkedEverywhere(t: Text, n: nat)
    requires Marked(t) && n < |t|
    ensures MarkedAt(t, n)
  {
  }

  lemma FirstLf(t: Text) returns (n: nat)
    requires Marked(t) && t != [] && t[0] != LF
    ensures 0 < n <= |t| && NoEol(t[..n]) && (n < |t| ==> t[n] == LF)
  {
    assert MarkedAt(t, 0);
    n := 1;
    while n < |t| && t[n] != LF
      invariant 0 < n <= |t| && NoEol(t[..n])
    {
      assert MarkedAt(t, n);
      n := n + 1;
    }
  }

  lemma {:induction false} MarkedSuffix(t: Text, n: nat)
    requires Marked(t) && n <= |t|
    ensures Marked(t[n..])
  {
    hide Marked;
    if n == 0 {
      assert t[0..] == t;
    } else {
      MarkedTail(t);
      MarkedSuffix(t[1..], n - 1);
      assert t[1..][n - 1..] == t[n..];
    }
  }

  /** A comment adds no entry to the document behind it. */
  lemma {:induction false} CommentAddsNothing(t: Text, more: Text)
    requires Marked(t) && t != [] && IsMark(t[0])
    ensures EntriesOf(t + [LF] + more) == EntriesOf(more)
    decreases |t|
  {
    hide Marked, EntriesOf, Faithful, Open, IsCommentLine, NoEol, Listed;
    var n := FirstLf(t);
    var body := t[..n];
    var e := Comment(body + [LF]);
    MarkIsComment(body);
    CommentIsClosed(body + [LF]);
    if n == |t| {
      assert body == t;
      EntriesThenText(e, more);
      NothingListed(EntriesOf(more));
    } else {
      var rest := t[n + 1..];
      MarkedSuffix(t, n + 1);
      assert MarkedAt(t, n) by { MarkedEverywhere(t, n); }
      CommentAddsNothing(rest, more);
      EntriesThenText(e, rest + [LF] + more);
      NothingListed(EntriesOf(more));
      assert t == body + [LF] + rest;
      assert t + [LF] + more == e.source + (rest + [LF] + more);
    }
  }

  // --- whole documents --------------------------------------------------

  function PairedProps(props: seq<(Text, Text)>): seq<(Text, Text)> {
    if props == [] then [] else [(Pair(props[0].0), Pair(props[0].1))] + PairedProps(props[1..])
  }

  lemma {:induction false} EntryLinesParse(props: seq<(Text, Text)>, ensureAscii: bool)
    ensures EntriesOf(EntryLines(props, ensureAscii)) == Ok(PairedProps(props))
  {
    hide EntriesOf, JoinKeyValue, Pair;
    if props == [] {
      NothingParses();
    } else {
      EntryLinesParse(props[1..], ensureAscii);
      PrintedThenText(props[0].0, props[0].1, ensureAscii, EntryLines(props[1..], ensureAscii));
    }
  }

  /** Every document `dumps` writes parses to its entries, in order and with duplicates, paired; the comment, whatever
      it holds, adds none and takes none. */
  lemma DocumentParses(props: seq<(Text, Text)>, comments: Option<Text>, charset: CommentCharset, ensureAscii: bool)
    ensures EntriesOf(DumpText(props, comments, charset, ensureAscii)) == Ok(PairedProps(props))
  {
    hide EntriesOf, ToComment, EntryLines, Marked;
    EntryLinesParse(props, ensureAscii);
    var body := EntryLines(props, ensureAscii);
    if comments.Some? {
      ToCommentIsMarked(comments.value, charset);
      CommentAddsNothing(ToComment(comments.value, charset), body);
    } else {
      assert [] + body == body;
    }
  }

  predicate PropsPairFree(props: OrderedDict) {
    forall p :: p in props ==> PairFree(p.0) && PairFree(p.1)
  }

  lemma {:induction false} PairedPropsIff(props: OrderedDict)
    ensures PairedProps(props) == props <==> PropsPairFree(props)
  {
    hide Pair, PairFree;
    if props != [] {
      var p, rest := props[0], props[1..];
      PairedPropsIff(rest);
      PairIsIdentityIff(p.0);
      PairIsIdentityIff(p.1);
      assert PairedProps(props)[1..] == PairedProps(rest);
      assert forall q :: q in props <==> q == p || q in rest;
      assert PairedProps(props)[0] == (Pair(p.0), Pair(p.1));
    }
  }

  /** A dict's own items, put one by one, are the dict. */
  lemma {:induction false} DictOfDict(done: OrderedDict, more: OrderedDict)
    requires IsDict(done + more) && DictOf(done) == done
    ensures DictOf(done + more) == done + more
    decreases |more|
  {
    hide DictOf;
    if more == [] {
      assert done + [] == done;
    } else {
      var p := more[0];
      DictOfSnoc(done, p);
      PutsLast(done, more);
      assert done + [p] + more[1..] == done + more;
      DictOfDict(done + [p], more[1..]);
    }
  }

  lemma {:induction false} PutsLast(done: OrderedDict, more: OrderedDict)
    requires more != [] && IsDict(done + more)
    ensures Put(done, more[0].0, more[0].1) == done + [more[0]]
  {
    if done != [] {
      var rest := done[1..];
      assert (done + more)[1..] == rest + more;
      PutsLast(rest, more);
      assert more[0] in rest + more;
      InIsKey(rest + more, more[0]);
    }
  }

  /** The round trip of whole documents: `loads(dumps(d, comments=c, timestamp=None))` is `d`, order included, for every
      comment, if and only if `d` holds no adjacent surrogate halves. */
  lemma DocumentRoundTripIff(props: OrderedDict, comments: Option<Text>, charset: CommentCharset, ensureAscii: bool)
    requires IsDict(props)
    ensures Loads(DumpText(props, comments, charset, ensureAscii)) == Ok(props) <==> PropsPairFree(props)
  {
    hide DumpText, PairFree, Parse, Pair, IsDict, AsMap;
    var text := DumpText(props, comments, charset, ensureAscii);
    DocumentParses(props, comments, charset, ensureAscii);
    PairedPropsIff(props);
    EmptyDict();
    assert [] + props == props;
    DictOfDict([], props);
    if Loads(text) == Ok(props) {
      LoadedPropsArePairFree(text, props);
    }
  }

  lemma EmptyDict()
    ensures DictOf([]) == []
  {
  }

  lemma LoadedPropsArePairFree(text: Text, props: OrderedDict)
    requires Loads(text) == Ok(props) && IsDict(props)
    ensures PropsPairFree(props)
  {
    hide Loads, PairFree, IsDict, AsMap;
    forall p | p in props
      ensures PairFree(p.0) && PairFree(p.1)
    {
      InIsKey(props, p);
      DictHolds(props, p);
      Runs.LoadedIsPairFree(text, p.0);
    }
  }

  lemma {:induction false} DictHolds(d: OrderedDict, p: (Text, Text))
    requires IsDict(d) && p in d
    ensures p.0 in AsMap(d) && AsMap(d)[p.0] == p.1
  {
    if d[0] != p {
      DictHolds(d[1..], p);
    }
  }
}
