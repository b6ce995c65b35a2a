/** What `to_comment` writes, line by line and character by character, and where it goes. */
module CommentTables {
  import opened Sequences
  import opened Wrappers
  import opened Chars
  import opened Lines
  import opened Reading
  import opened Writing
  import opened EscapeTables
  import opened Grammar

  // --- line ends ------------------------------------------------------------------

  lemma {:induction false} NormalizeThrough(a: Text, b: Text)
    requires NoLineEnd(a)
    ensures NormalizeEol(a + b) == a + NormalizeEol(b)
  {
    if a == [] {
      assert a + b == b;
    } else {
      assert (a + b)[1..] == a[1..] + b;
      NormalizeThrough(a[1..], b);
      Associates([a[0]], a[1..], NormalizeEol(b));
      assert [a[0]] + a[1..] == a;
    }
  }

  /** CR LF, LF, and a CR that no LF follows become LF, and nothing else changes. */
  lemma NormalizedLine(a: Text, e: Text, b: Text)
    requires NoLineEnd(a) && IsLineEnd(e) && !(e == [0x0D] && b != [] && b[0] == 0x0A)
    ensures NormalizeEol(a) == a
    ensures NormalizeEol(a + (e + b)) == a + ([0x0A] + NormalizeEol(b))
  {
    NormalizeThrough(a, []);
    assert a + [] == a;
    NormalizeThrough(a, e + b);
    if e == [0x0D, 0x0A] {
      assert (e + b)[2..] == b;
    } else {
      assert (e + b)[1..] == b;
    }
  }

  // --- markers --------------------------------------------------------------------

  predicate StartsMarked(s: Text) {
    s != [] && (s[0] == 0x23 || s[0] == 0x21)
  }

  lemma {:induction false} MarkThrough(a: Text, b: Text)
    requires NoLineEnd(a)
    ensures MarkLines(a + b) == a + MarkLines(b)
  {
    if a == [] {
      assert a + b == b;
    } else {
      assert (a + b)[1..] == a[1..] + b;
      MarkThrough(a[1..], b);
      Associates([a[0]], a[1..], MarkLines(b));
      assert [a[0]] + a[1..] == a;
    }
  }

  lemma MarkedLine(a: Text, b: Text)
    requires NoLineEnd(a)
    ensures MarkLines(a) == a
    ensures MarkLines(a + ([0x0A] + b)) == a + ([0x0A] + ((if StartsMarked(b) then [] else [0x23]) + MarkLines(b)))
  {
    MarkThrough(a, []);
    assert a + [] == a;
    MarkThrough(a, [0x0A] + b);
    assert ([0x0A] + b)[1..] == b;
    if !StartsMarked(b) {
      assert [LF, HASH] + MarkLines(b) == [0x0A] + ([0x23] + MarkLines(b));
    } else {
      assert [] + MarkLines(b) == MarkLines(b);
    }
  }

  // --- characters -----------------------------------------------------------------

  /** A character the charset cannot hold is written as its number, or as its two halves'. */
  function CommentPrinted(c: CodePoint, charset: CommentCharset): Text {
    var limit := match charset case Latin1 => 0x100 case Ascii => 0x80 case Anything => 0x11_0000;
    if c < limit then [c] else ByNumber(c)
  }

  function AllCommented(s: Text, charset: CommentCharset): Text {
    if s == [] then [] else CommentPrinted(s[0], charset) + AllCommented(s[1..], charset)
  }

  lemma {:induction false} CommentIsPrinted(s: Text, charset: CommentCharset)
    ensures EscapeComment(s, charset) == AllCommented(s, charset)
  {
    if s != [] {
      CharInComment(s[0], charset);
      CommentIsPrinted(s[1..], charset);
      hide EscapeChar, CommentPrinted;
    }
  }

  lemma CharInComment(c: CodePoint, charset: CommentCharset)
    ensures CommentPrinted(c, charset) ==
            if (charset.Latin1? && c > 0xFF) || (charset.Ascii? && c > 0x7F) then EscapeChar(c) else [c]
  {
    UEscapeIs(c);
    hide UEscape, ByNumber;
  }

  lemma {:induction false} CommentAppend(a: Text, b: Text, charset: CommentCharset)
    ensures EscapeComment(a + b, charset) == EscapeComment(a, charset) + EscapeComment(b, charset)
  {
    hide EscapeChar;
    if a == [] {
      assert a + b == b;
      assert [] + EscapeComment(b, charset) == EscapeComment(b, charset);
    } else {
      assert (a + b)[1..] == a[1..] + b;
      CommentAppend(a[1..], b, charset);
      var head := EscapeComment(a, charset)[..|EscapeComment(a, charset)| - |EscapeComment(a[1..], charset)|];
      Associates(head, EscapeComment(a[1..], charset), EscapeComment(b, charset));
    }
  }

  lemma PlainInComment(c: CodePoint, charset: CommentCharset)
    requires c < 0x80
    ensures EscapeComment([c], charset) == [c]
  {
  }

  // --- a comment ------------------------------------------------------------------

  lemma EscapedComment(comment: Text, charset: CommentCharset)
    ensures ToComment(comment, charset) == [0x23] + EscapeComment(MarkLines(NormalizeEol(comment)), charset)
  {
  }

  lemma MarkedStays(b: Text)
    ensures StartsMarked(NormalizeEol(b)) <==> StartsMarked(b)
  {
  }

  /** One line of a comment is a number sign and its characters; a line end is an LF, and a number sign where the next
      line does not bring its own marker. */
  lemma CommentLine(a: Text, e: Text, b: Text, charset: CommentCharset)
    requires NoLineEnd(a) && IsLineEnd(e) && !(e == [0x0D] && b != [] && b[0] == 0x0A)
    ensures ToComment(a, charset) == [0x23] + AllCommented(a, charset)
    ensures ToComment(a + (e + b), charset) ==
            ToComment(a, charset) +
            ([0x0A] + (if StartsMarked(b) then ToComment(b, charset)[1..] else ToComment(b, charset)))
  {
    NormalizedLine(a, e, b);
    var n := NormalizeEol(b);
    MarkedLine(a, n);
    MarkedStays(b);
    EscapedComment(a, charset);
    EscapedComment(b, charset);
    EscapedComment(a + (e + b), charset);
    CommentIsPrinted(a, charset);
    var mark: Text := if StartsMarked(b) then [] else [0x23];
    var tail := mark + MarkLines(n);
    hide *;
    CommentAppend(a, [0x0A] + tail, charset);
    CommentAppend([0x0A], tail, charset);
    CommentAppend(mark, MarkLines(n), charset);
    PlainInComment(0x0A, charset);
    PlainInComment(0x23, charset);
    NothingInComment(charset);
    Associates([0x23], AllCommented(a, charset), [0x0A] + EscapeComment(tail, charset));
    AfterMark(EscapeComment(MarkLines(n), charset));
  }

  lemma NothingInComment(charset: CommentCharset)
    ensures EscapeComment([], charset) == []
  {
  }

  lemma AfterMark(s: Text)
    ensures ([0x23] + s)[1..] == s && [] + s == s
  {
  }

  /** The comment comes first, on lines of its own. */
  lemma CommentComesFirst(props: seq<(Text, Text)>, comment: Text, charset: CommentCharset, ensureAscii: bool)
    ensures DumpText(props, Some(comment), charset, ensureAscii) ==
            ToComment(comment, charset) + [0x0A] + DumpText(props, None, charset, ensureAscii)
    ensures DumpText(props, None, charset, ensureAscii) == EntryLines(props, ensureAscii)
  {
    hide ToComment, EntryLines;
    assert [] + EntryLines(props, ensureAscii) == EntryLines(props, ensureAscii);
  }
}
