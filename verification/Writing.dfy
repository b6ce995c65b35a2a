/** Writing a `.properties` document: escaping, `key=value` lines and comments. */
module Writing {
  import opened Wrappers
  import opened Chars
  import opened Lines
  import opened Reading

  /** `NEEDS_ESCAPE_ASCII_RGX` and `NEEDS_ESCAPE_UNICODE_RGX`. */
  predicate NeedsEscape(c: CodePoint, ensureAscii: bool) {
    || c == BACKSLASH || c == HASH || c == BANG || c == EQUALS || c == COLON
    || (if ensureAscii then !(0x20 <= c <= 0x7E) else c <= 0x1F || c == 0x7F)
  }

  function HexDigit(v: nat): (c: CodePoint)
    requires v < 16
    ensures IsHexDigit(c) && HexDigitValue(c) == v
  {
    if v < 10 then 0x30 + v else 0x61 + (v - 10)
  }

  /** `format(n, "04x")` */
  function Hex4(n: nat): (h: Text)
    requires n < 0x1_0000
    ensures |h| == 4
  {
    [HexDigit(n / 0x1000), HexDigit(n / 0x100 % 0x10), HexDigit(n / 0x10 % 0x10), HexDigit(n % 0x10)]
  }

  function HighSurrogate(c: CodePoint): (h: CodePoint)
    requires c >= 0x1_0000
    ensures IsHigh(h)
  {
    0xD800 + (c - 0x1_0000) / 0x400
  }

  function LowSurrogate(c: CodePoint): (l: CodePoint)
    requires c >= 0x1_0000
    ensures IsLow(l)
  {
    0xDC00 + (c - 0x1_0000) % 0x400
  }

  /** `_to_u_escape` */
  function UEscape(c: CodePoint): Text {
    if c > 0xFFFF then
      [BACKSLASH, LETTER_U] + Hex4(HighSurrogate(c)) + ([BACKSLASH, LETTER_U] + Hex4(LowSurrogate(c)))
    else [BACKSLASH, LETTER_U] + Hex4(c)
  }

  /** `_esc` */
  function EscapeChar(c: CodePoint): Text {
    if c == TAB then [BACKSLASH, LETTER_T]
    else if c == LF then [BACKSLASH, LETTER_N]
    else if c == FF then [BACKSLASH, LETTER_F]
    else if c == CR then [BACKSLASH, LETTER_R]
    else if c == BANG || c == HASH || c == COLON || c == EQUALS || c == BACKSLASH then [BACKSLASH, c]
    else UEscape(c)
  }

  function BaseUnit(c: CodePoint, ensureAscii: bool): Text {
    if NeedsEscape(c, ensureAscii) then EscapeChar(c) else [c]
  }

  function BaseEscape(field: Text, ensureAscii: bool): Text {
    if field == [] then [] else BaseUnit(field[0], ensureAscii) + BaseEscape(field[1..], ensureAscii)
  }

  /** `s.replace(" ", r"\ ")` */
  function EscapeSpaces(s: Text): Text {
    if s == [] then [] else (if s[0] == SPACE then [BACKSLASH, SPACE] else [s[0]]) + EscapeSpaces(s[1..])
  }

  function Escape(field: Text, ensureAscii: bool): Text {
    EscapeSpaces(BaseEscape(field, ensureAscii))
  }

  /** The right-hand side of a `key=value` line: only a leading space is escaped. */
  function EscapeValue(value: Text, ensureAscii: bool): Text {
    var v := BaseEscape(value, ensureAscii);
    if v != [] && v[0] == SPACE then [BACKSLASH] + v else v
  }

  /** `join_key_value` with the default separator. */
  function JoinKeyValue(key: Text, value: Text, ensureAscii: bool): Text {
    Escape(key, ensureAscii) + [EQUALS] + EscapeValue(value, ensureAscii)
  }

  // --- comments ---------------------------------------------------------

  predicate IsMark(c: CodePoint) {
    c == HASH || c == BANG
  }

  /** `NEWLINE_OLD_COMMENT_RGX.sub("\n#", s)`, the regex being `\n(?![#!])` */
  function MarkLines(s: Text): Text {
    if s == [] then []
    else if s[0] == LF && (|s| == 1 || !IsMark(s[1])) then [LF, HASH] + MarkLines(s[1..])
    else [s[0]] + MarkLines(s[1..])
  }

  /** What the comment escape does with each setting of `ensure_ascii`: `None`, true, false. */
  datatype CommentCharset = Latin1 | Ascii | Anything

  function EscapeComment(s: Text, charset: CommentCharset): Text {
    if s == [] then []
    else
      var escaped := (charset.Latin1? && s[0] > 0xFF) || (charset.Ascii? && s[0] > 0x7F);
      (if escaped then EscapeChar(s[0]) else [s[0]]) + EscapeComment(s[1..], charset)
  }

  function ToComment(comment: Text, charset: CommentCharset): Text {
    [HASH] + EscapeComment(MarkLines(NormalizeEol(comment)), charset)
  }

  // --- dump -------------------------------------------------------------

  function EntryLines(props: seq<(Text, Text)>, ensureAscii: bool): Text {
    if props == [] then []
    else JoinKeyValue(props[0].0, props[0].1, ensureAscii) + [LF] + EntryLines(props[1..], ensureAscii)
  }

  /** `dumps(props, comments=comments, timestamp=None)` */
  function DumpText(props: seq<(Text, Text)>, comments: Option<Text>, charset: CommentCharset, ensureAscii: bool):
    Text
  {
    (if comments.Some? then ToComment(comments.value, charset) + [LF] else []) + EntryLines(props, ensureAscii)
  }

  method Dumps(props: seq<(Text, Text)>, comments: Option<Text>, charset: CommentCharset, ensureAscii: bool)
    returns (s: Text)
    ensures s == DumpText(props, comments, charset, ensureAscii)
  {
    hide BaseEscape, EscapeComment, JoinKeyValue, ToComment;
    s := [];
    if comments.Some? {
      s := s + ToComment(comments.value, charset) + [LF];
    }
    assert props[0..] == props;
    for i := 0 to |props|
      invariant DumpText(props, comments, charset, ensureAscii) == s + EntryLines(props[i..], ensureAscii)
    {
      ghost var rest := props[i..];
      assert rest[1..] == props[i + 1..];
      var line := JoinKeyValue(props[i].0, props[i].1, ensureAscii) + [LF];
      assert s + (line + EntryLines(rest[1..], ensureAscii)) == s + line + EntryLines(rest[1..], ensureAscii);
      s := s + line;
    }
  }
}
